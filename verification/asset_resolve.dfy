/** The case-exact resolver of `scripts/check_asset_case.py`
    (`exact_case_path_exists`): normalise a referenced path, walk it one
    segment at a time through the `public/` tree preferring an exact name and
    falling back to the first case-insensitive one, and compare the path
    rebuilt from the real names with the requested one.

    Python's `str.lower()` is the parameter `fold`; nothing here depends on
    what it does beyond being a function. */
module AssetResolve {
  import opened Wrappers
  import opened Seqs
  import opened AssetTree

  /** `s.lstrip("/")`: every leading slash removed. */
  function LStripSlashes(s: string): (r: string)
    ensures |r| <= |s| && r == s[|s| - |r|..]
    ensures forall k :: 0 <= k < |s| - |r| ==> s[k] == '/'
    ensures r == [] || r[0] != '/'
    decreases |s|
  {
    if |s| > 0 && s[0] == '/' then LStripSlashes(s[1..]) else s
  }

  /** `s.split(c, 1)[0]`: the text before the first `c`, or all of `s`. */
  function CutAt(s: string, c: char): (r: string)
    ensures |r| <= |s| && r == s[..|r|]
    ensures c !in r
    ensures |r| < |s| ==> s[|r|] == c
    decreases |s|
  {
    if |s| == 0 then ""
    else if s[0] == c then ""
    else [s[0]] + CutAt(s[1..], c)
  }

  /** The path with any query string and then any fragment cut off. */
  function StripQuery(s: string): (r: string)
    ensures '?' !in r && '#' !in r
    ensures |r| <= |s| && r == s[..|r|]
    ensures |r| < |s| ==> s[|r|] == '?' || s[|r|] == '#'
  {
    CutAt(CutAt(s, '?'), '#')
  }

  predicate NonEmpty(s: string) { s != "" }

  /** The non-empty pieces of `s` between slashes. */
  function Segments(s: string): (parts: seq<string>)
    ensures forall k :: 0 <= k < |parts| ==> parts[k] != "" && '/' !in parts[k]
  {
    var parts := Filter(Split(s, '/'), NonEmpty);
    assert forall k :: 0 <= k < |parts| ==> parts[k] in Split(s, '/');
    parts
  }

  /** A slash splits the segments: those of `a + "/" + b` are those of `a`
      followed by those of `b`. With `SegmentsOfWord` this determines the
      segments of every string. */
  lemma SegmentsAtSlash(a: string, b: string)
    ensures Segments(a + "/" + b) == Segments(a) + Segments(b)
  {
    SplitAtSep(a, b, '/');
    FilterAppend(Split(a, '/'), Split(b, '/'), NonEmpty);
  }

  /** A string without slashes is one segment, or none when it is empty. */
  lemma SegmentsOfWord(w: string)
    requires '/' !in w
    ensures Segments(w) == if w == "" then [] else [w]
  {
    assert Join([w], '/') == w;
    SplitJoin([w], '/');
  }

  /** Leading slashes make no difference to the segments. */
  lemma SegmentsLStrip(s: string)
    ensures Segments(LStripSlashes(s)) == Segments(s)
  {
    var r := LStripSlashes(s);
    var n := |s| - |r|;
    assert s == s[..n] + r;
    SegmentsSlashPrefix(s[..n], r);
  }

  lemma {:induction false} SegmentsSlashPrefix(p: string, t: string)
    requires forall k :: 0 <= k < |p| ==> p[k] == '/'
    ensures Segments(p + t) == Segments(t)
    decreases |p|
  {
    if |p| > 0 {
      var u := p[1..] + t;
      SegmentsSlashPrefix(p[1..], t);
      assert p + t == "/" + u;
      SegmentsSlashCons(u);
      assert Segments(p + t) == Segments(u);
    } else {
      assert p + t == t;
    }
  }

  lemma SegmentsSlashCons(t: string)
    ensures Segments("/" + t) == Segments(t)
  {
    assert "" + "/" + t == "/" + t;
    SegmentsAtSlash("", t);
    SegmentsOfWord("");
  }

  /** The segments walked for a referenced path: leading slashes stripped,
      query and fragment cut, empty segments dropped. */
  function Normalise(url: string): (parts: seq<string>)
    ensures forall k :: 0 <= k < |parts| ==>
      parts[k] != "" && '/' !in parts[k] && '?' !in parts[k] && '#' !in parts[k]
    ensures parts == Segments(StripQuery(url))
  {
    var s := StripQuery(LStripSlashes(url));
    var parts := Segments(s);
    assert forall k :: 0 <= k < |parts| ==> parts[k] in Split(s, '/');
    forall k | 0 <= k < |parts|
      ensures '?' !in parts[k] && '#' !in parts[k]
    {
      SplitPieceChars(s, '/', parts[k]);
    }
    LStripCutCommute(url, '?');
    LStripCutCommute(CutAt(url, '?'), '#');
    SegmentsLStrip(StripQuery(url));
    parts
  }

  /** Every character of a piece of a split occurs in the split string. */
  lemma {:induction false} SplitPieceChars(s: string, sep: char, piece: string)
    requires piece in Split(s, sep)
    ensures forall c :: c in piece ==> c in s
    decreases |s|
  {
    if |s| > 0 {
      var rest := Split(s[1..], sep);
      if s[0] == sep {
        if piece != "" {
          assert piece in rest;
          SplitPieceChars(s[1..], sep, piece);
        }
      } else if piece == [s[0]] + rest[0] {
        SplitPieceChars(s[1..], sep, rest[0]);
      } else {
        assert piece in rest;
        SplitPieceChars(s[1..], sep, piece);
      }
    }
  }

  /** The first entry of `es` from `i` on whose name is exactly `part`. */
  function ExactIndex(es: seq<Entry>, part: string, i: nat): (r: Option<nat>)
    requires i <= |es|
    ensures r.Some? ==> i <= r.value < |es| && es[r.value].name == part
    ensures r.Some? ==> forall q :: i <= q < r.value ==> es[q].name != part
    ensures r.None? ==> forall q :: i <= q < |es| ==> es[q].name != part
    decreases |es| - i
  {
    if i == |es| then None
    else if es[i].name == part then Some(i)
    else ExactIndex(es, part, i + 1)
  }

  /** The first entry of `es` from `i` on whose folded name equals the
      folded `part`. */
  function FoldIndex(fold: string -> string, es: seq<Entry>, part: string, i: nat): (r: Option<nat>)
    requires i <= |es|
    ensures r.Some? ==> i <= r.value < |es| && fold(es[r.value].name) == fold(part)
    ensures r.Some? ==> forall q :: i <= q < r.value ==> fold(es[q].name) != fold(part)
    ensures r.None? ==> forall q :: i <= q < |es| ==> fold(es[q].name) != fold(part)
    decreases |es| - i
  {
    if i == |es| then None
    else if fold(es[i].name) == fold(part) then Some(i)
    else FoldIndex(fold, es, part, i + 1)
  }

  /** One step of the walk: the exactly named entry if there is one,
      otherwise the first case-insensitive match, otherwise nothing. The
      chosen entry is the first one carrying its name. */
  function Pick(fold: string -> string, es: seq<Entry>, part: string): (r: Option<nat>)
    ensures r.Some? ==> r.value < |es| && fold(es[r.value].name) == fold(part)
    ensures r.Some? ==> forall q :: 0 <= q < r.value ==> es[q].name != es[r.value].name
    ensures r.None? <==> forall q :: 0 <= q < |es| ==> fold(es[q].name) != fold(part)
    ensures (exists q :: 0 <= q < |es| && es[q].name == part) ==> r.Some? && es[r.value].name == part
    ensures (forall q :: 0 <= q < |es| ==> es[q].name != part) && r.Some? ==>
      forall q :: 0 <= q < r.value ==> fold(es[q].name) != fold(part)
  {
    match ExactIndex(es, part, 0)
    case Some(k) => Some(k)
    case None =>
      FoldIndex(fold, es, part, 0)
  }

  /** The node at the end of a successful walk and the real names of the
      entries it went through. */
  datatype Walked = Walked(node: Node, fixed: seq<string>)

  /** The node reached from `n` by following entries with exactly these
      names, taking the first entry of each name. */
  function Lookup(n: Node, names: seq<string>): Option<Node>
    decreases |names|
  {
    if names == [] then Some(n)
    else match Child(n, names[0])
      case None => None
      case Some(c) => Lookup(c, names[1..])
  }

  /** The segment-by-segment walk. On success there is one real name per
      segment, each equal to its segment up to case, and those names lead
      exactly to the node reached. */
  function Walk(fold: string -> string, cur: Node, parts: seq<string>): (r: Option<Walked>)
    ensures r.Some? ==> |r.value.fixed| == |parts|
    ensures r.Some? ==> forall k :: 0 <= k < |parts| ==> fold(r.value.fixed[k]) == fold(parts[k])
    ensures r.Some? ==> Lookup(cur, r.value.fixed) == Some(r.value.node)
    decreases |parts|
  {
    if parts == [] then Some(Walked(cur, []))
    else if cur.File? then None
    else
      match Pick(fold, cur.entries, parts[0])
      case None => None
      case Some(k) =>
        var e := cur.entries[k];
        match Walk(fold, e.node, parts[1..])
        case None => None
        case Some(w) =>
          assert ChildFrom(cur.entries, e.name, 0) == Some(e.node) by {
            ChildFromFirst(cur.entries, e.name, 0, k);
          }
          Some(Walked(w.node, [e.name] + w.fixed))
  }

  lemma {:induction false} ChildFromFirst(es: seq<Entry>, name: string, i: nat, k: nat)
    requires i <= k < |es| && es[k].name == name
    requires forall q :: i <= q < k ==> es[q].name != name
    ensures ChildFrom(es, name, i) == Some(es[k].node)
    decreases k - i
  {
    if i < k {
      ChildFromFirst(es, name, i + 1, k);
    }
  }

  /** The outcome of `exact_case_path_exists`: `corrected` is None when the
      path is missing; `ok` says the path exists with exactly this case. */
  datatype Resolution = Resolution(ok: bool, corrected: Option<string>)

  /** `"/" + "/".join(fixed)`. */
  function Rebuild(fixed: seq<string>): (s: string)
    ensures |s| >= 1 && s[0] == '/'
  {
    "/" + Join(fixed, '/')
  }

  function Resolve(fold: string -> string, root: Node, url: string): (r: Resolution)
    ensures r.ok ==> r.corrected == Some(StripQuery(url))
    ensures r.corrected.Some? ==> |r.corrected.value| >= 1 && r.corrected.value[0] == '/'
    ensures r.corrected.Some? && r.corrected.value == StripQuery(url) ==> r.ok
    ensures r.corrected.None? <==> Walk(fold, root, Normalise(url)).None?
  {
    match Walk(fold, root, Normalise(url))
    case None => Resolution(false, None)
    case Some(w) =>
      var corrected := Rebuild(w.fixed);
      Resolution(corrected == StripQuery(url), Some(corrected))
  }

  /** When every segment names an existing entry exactly, the walk follows
      exactly those entries. */
  lemma {:induction false} ExactPathWalks(fold: string -> string, n: Node, parts: seq<string>)
    requires Lookup(n, parts).Some?
    ensures Walk(fold, n, parts) == Some(Walked(Lookup(n, parts).value, parts))
    decreases |parts|
  {
    if parts != [] {
      var c := Child(n, parts[0]).value;
      var k := Pick(fold, n.entries, parts[0]).value;
      assert n.entries[k].name == parts[0];
      ChildFromFirst(n.entries, parts[0], 0, k);
      ExactPathWalks(fold, c, parts[1..]);
      assert [parts[0]] + parts[1..] == parts;
    }
  }

  /** Entry names that are non-empty and hold no `/`, `?` or `#`. */
  ghost predicate PlainTree(n: Node)
    decreases n
  {
    n.Dir? ==> forall k :: 0 <= k < |n.entries| ==>
      && PlainName(n.entries[k].name)
      && PlainTree(n.entries[k].node)
  }

  predicate PlainName(s: string) {
    s != "" && '/' !in s && '?' !in s && '#' !in s
  }

  /** Names met along a lookup in a plain tree are plain. */
  lemma {:induction false} LookupPlain(n: Node, names: seq<string>)
    requires PlainTree(n) && Lookup(n, names).Some?
    ensures forall k :: 0 <= k < |names| ==> PlainName(names[k])
    decreases |names|
  {
    if names != [] {
      var c := Child(n, names[0]).value;
      var k :| 0 <= k < |n.entries| && n.entries[k] == Entry(names[0], c);
      LookupPlain(c, names[1..]);
      forall q | 0 <= q < |names| ensures PlainName(names[q]) {
        if q > 0 {
          assert names[q] == names[1..][q - 1];
        }
      }
    }
  }

  lemma {:induction false} LStripRebuild(fixed: seq<string>)
    requires forall k :: 0 <= k < |fixed| ==> PlainName(fixed[k])
    ensures LStripSlashes(Rebuild(fixed)) == Join(fixed, '/')
  {
    var j := Join(fixed, '/');
    assert Rebuild(fixed)[1..] == j;
    if |fixed| > 0 {
      JoinStartsWithFirst(fixed);
      assert j[0] == fixed[0][0];
      assert fixed[0][0] in fixed[0];
    }
  }

  lemma JoinStartsWithFirst(parts: seq<string>)
    requires |parts| >= 1 && |parts[0]| >= 1
    ensures |Join(parts, '/')| >= 1 && Join(parts, '/')[0] == parts[0][0]
  {
  }

  lemma {:induction false} JoinNoQuery(fixed: seq<string>)
    requires forall k :: 0 <= k < |fixed| ==> PlainName(fixed[k])
    ensures '?' !in Join(fixed, '/') && '#' !in Join(fixed, '/')
    decreases |fixed|
  {
    if |fixed| > 1 {
      JoinNoQuery(fixed[1..]);
    }
  }

  lemma CutAtAbsent(s: string, c: char)
    requires c !in s
    ensures CutAt(s, c) == s
  {
    forall k | 0 <= k < |s| ensures s[k] != c {
      assert s[k] in s;
    }
  }

  /** Splitting a rebuilt path gives back its non-empty names. */
  lemma SegmentsOfJoin(fixed: seq<string>)
    requires forall k :: 0 <= k < |fixed| ==> PlainName(fixed[k])
    ensures Segments(Join(fixed, '/')) == fixed
  {
    if |fixed| == 0 {
      assert Split("", '/') == [""];
    } else {
      SplitJoin(fixed, '/');
      FilterAllKept(fixed);
    }
  }

  lemma {:induction false} FilterAllKept(parts: seq<string>)
    requires forall k :: 0 <= k < |parts| ==> parts[k] != ""
    ensures Filter(parts, NonEmpty) == parts
    decreases |parts|
  {
    if parts != [] {
      FilterAllKept(parts[1..]);
    }
  }

  /** Resolving a corrected path is an exact match that corrects to itself:
      the corrected path consists of real names only. */
  lemma CorrectedIsExact(fold: string -> string, root: Node, url: string)
    requires PlainTree(root)
    requires Resolve(fold, root, url).corrected.Some?
    ensures var c := Resolve(fold, root, url).corrected.value;
      Resolve(fold, root, c) == Resolution(true, Some(c))
  {
    var w := Walk(fold, root, Normalise(url)).value;
    LookupPlain(root, w.fixed);
    RebuildRoundTrip(w.fixed);
    ExactPathWalks(fold, root, w.fixed);
  }

  /** A path rebuilt from plain names has no query to cut, and its
      segments are those names again. */
  lemma RebuildRoundTrip(fixed: seq<string>)
    requires forall k :: 0 <= k < |fixed| ==> PlainName(fixed[k])
    ensures StripQuery(Rebuild(fixed)) == Rebuild(fixed)
    ensures Normalise(Rebuild(fixed)) == fixed
  {
    var c := Rebuild(fixed);
    JoinNoQuery(fixed);
    assert '?' !in c && '#' !in c by {
      assert c == "/" + Join(fixed, '/');
    }
    CutAtAbsent(c, '?');
    CutAtAbsent(c, '#');
    LStripRebuild(fixed);
    CutAtAbsent(Join(fixed, '/'), '?');
    CutAtAbsent(Join(fixed, '/'), '#');
    SegmentsOfJoin(fixed);
  }

  /** The correction of a found reference is `/` followed by real names,
      one per segment, each equal to its segment up to case, that lead to
      an existing entry. */
  lemma ResolveCorrection(fold: string -> string, root: Node, url: string)
    requires Resolve(fold, root, url).corrected.Some?
    ensures exists fixed ::
      && |fixed| == |Normalise(url)|
      && (forall k :: 0 <= k < |fixed| ==> fold(fixed[k]) == fold(Normalise(url)[k]))
      && Lookup(root, fixed).Some?
      && Resolve(fold, root, url).corrected.value == Rebuild(fixed)
  {
    var fixed := Walk(fold, root, Normalise(url)).value.fixed;
    assert Lookup(root, fixed).Some?;
    assert Resolve(fold, root, url).corrected.value == Rebuild(fixed);
  }

  /** A path whose query-stripped form has two slashes in a row is never an
      exact match in a plain tree, even when it is found: the rebuilt path
      has single slashes only. */
  lemma DoubledSlashNeverExact(fold: string -> string, root: Node, url: string, i: nat)
    requires PlainTree(root)
    requires i + 1 < |StripQuery(url)| && StripQuery(url)[i] == '/' && StripQuery(url)[i + 1] == '/'
    ensures !Resolve(fold, root, url).ok
  {
    var r := Resolve(fold, root, url);
    if r.corrected.Some? {
      var w := Walk(fold, root, Normalise(url)).value;
      LookupPlain(root, w.fixed);
      JoinSingleSlashes(w.fixed, i);
    }
  }

  /** Two slashes are never adjacent in `"/" + "/".join(names)` for
      non-empty names. */
  lemma {:induction false} JoinSingleSlashes(names: seq<string>, i: nat)
    requires forall k :: 0 <= k < |names| ==> PlainName(names[k])
    ensures i + 1 < |Rebuild(names)| && Rebuild(names)[i] == '/' ==> Rebuild(names)[i + 1] != '/'
    decreases |names|
  {
    var s := Rebuild(names);
    if |names| == 1 {
      var n0 := names[0];
      assert s == "/" + n0;
      if i + 1 < |s| {
        assert s[i + 1] == n0[i];
        assert n0[i] in n0;
      }
    } else if |names| > 1 {
      var n0 := names[0];
      var tail := Rebuild(names[1..]);
      assert s == "/" + n0 + tail;
      if i + 1 <= |n0| {
        assert s[i + 1] == n0[i];
        assert n0[i] in n0;
      } else if i == |n0| {
        assert s[i] == n0[i - 1];
        assert n0[i - 1] in n0;
      } else if i + 1 < |s| {
        JoinSingleSlashes(names[1..], i - |n0| - 1);
        assert s[i] == tail[i - |n0| - 1];
        assert s[i + 1] == tail[i - |n0|];
      }
    }
  }

  /** Stripping leading slashes and cutting at a character other than `/`
      can happen in either order. */
  lemma {:induction false} LStripCutCommute(s: string, c: char)
    requires c != '/'
    ensures CutAt(LStripSlashes(s), c) == LStripSlashes(CutAt(s, c))
    decreases |s|
  {
    if |s| > 0 && s[0] == '/' {
      LStripCutCommute(s[1..], c);
      assert CutAt(s, c) == "/" + CutAt(s[1..], c);
    }
  }

  /** In a plain tree a path is an exact match exactly when its segments
      name existing entries with exactly this case and the path, without
      query or fragment, is already the canonical `/a/b/c` spelling of
      those segments. */
  lemma ExactMatchIff(fold: string -> string, root: Node, url: string)
    requires PlainTree(root)
    ensures var parts := Normalise(url);
      Resolve(fold, root, url).ok <==>
        Lookup(root, parts).Some? && StripQuery(url) == Rebuild(parts)
  {
    var parts := Normalise(url);
    if Lookup(root, parts).Some? && StripQuery(url) == Rebuild(parts) {
      ExactPathWalks(fold, root, parts);
    }
    if Resolve(fold, root, url).ok {
      var w := Walk(fold, root, parts).value;
      LookupPlain(root, w.fixed);
      LStripCutCommute(url, '?');
      LStripCutCommute(CutAt(url, '?'), '#');
      assert StripQuery(LStripSlashes(url)) == LStripSlashes(StripQuery(url));
      LStripRebuild(w.fixed);
      JoinNoQuery(w.fixed);
      CutAtAbsent(Join(w.fixed, '/'), '?');
      CutAtAbsent(Join(w.fixed, '/'), '#');
      SegmentsOfJoin(w.fixed);
      assert parts == w.fixed;
    }
  }

  /** Some entry path matches `parts` segment by segment up to case. */
  ghost predicate FoldReachable(fold: string -> string, n: Node, parts: seq<string>)
    decreases |parts|
  {
    parts == [] ||
    (n.Dir? &&
       exists k :: 0 <= k < |n.entries| &&
         fold(n.entries[k].name) == fold(parts[0]) &&
         FoldReachable(fold, n.entries[k].node, parts[1..]))
  }

  /** No directory holds two names that differ only in case. */
  ghost predicate CaseDistinctTree(fold: string -> string, n: Node)
    decreases n
  {
    n.Dir? ==>
      && (forall i, j :: 0 <= i < j < |n.entries| ==>
            fold(n.entries[i].name) != fold(n.entries[j].name))
      && (forall k :: 0 <= k < |n.entries| ==> CaseDistinctTree(fold, n.entries[k].node))
  }

  /** A successful walk follows a case-insensitive path. */
  lemma {:induction false} WalkReachable(fold: string -> string, n: Node, parts: seq<string>)
    requires Walk(fold, n, parts).Some?
    ensures FoldReachable(fold, n, parts)
    decreases |parts|
  {
    if parts != [] {
      var k := Pick(fold, n.entries, parts[0]).value;
      WalkReachable(fold, n.entries[k].node, parts[1..]);
    }
  }

  /** When siblings never differ only in case, any case-insensitive path is
      found: the entry picked at each step is the only candidate. */
  lemma {:induction false} ReachableWalks(fold: string -> string, n: Node, parts: seq<string>)
    requires CaseDistinctTree(fold, n)
    requires FoldReachable(fold, n, parts)
    ensures Walk(fold, n, parts).Some?
    decreases |parts|
  {
    if parts != [] {
      var k :| 0 <= k < |n.entries| && fold(n.entries[k].name) == fold(parts[0]) &&
        FoldReachable(fold, n.entries[k].node, parts[1..]);
      var j := Pick(fold, n.entries, parts[0]).value;
      assert j == k;
      ReachableWalks(fold, n.entries[k].node, parts[1..]);
    }
  }

  /** A reference is reported missing exactly when no case-insensitive path
      to it exists, on a tree whose siblings differ beyond case. */
  lemma MissingIff(fold: string -> string, root: Node, url: string)
    requires CaseDistinctTree(fold, root)
    ensures Resolve(fold, root, url).corrected.None? <==>
      !FoldReachable(fold, root, Normalise(url))
  {
    var parts := Normalise(url);
    if Walk(fold, root, parts).Some? {
      WalkReachable(fold, root, parts);
    }
    if FoldReachable(fold, root, parts) {
      ReachableWalks(fold, root, parts);
    }
  }
}
