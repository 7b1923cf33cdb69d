/** The driver of `scripts/check_asset_case.py` (`main`): resolve every
    reference found in the project against `public/`, sort the failures
    into missing assets and case mismatches, report them with at most fifty
    entries per list, and choose the exit status. */
module AssetReport {
  import opened Wrappers
  import opened Seqs
  import opened AssetTree
  import opened AssetScan
  import opened AssetResolve

  /** Most entries listed per kind before the rest are summarised. */
  const ListCap: nat := 50

  /** A reference that exists only with a different case, and the path with
      the real case. */
  datatype Mismatch = Mismatch(ref: Ref, corrected: string)

  datatype Report = Report(missing: seq<Ref>, mismatches: seq<Mismatch>)

  /** An exact match always comes with its path, as `Resolve` guarantees. */
  ghost predicate Consistent(resolve: string -> Resolution) {
    forall p :: resolve(p).ok ==> resolve(p).corrected.Some?
  }

  /** Number of references that resolve exactly. */
  function OkCount(resolve: string -> Resolution, refs: seq<Ref>): nat
    decreases |refs|
  {
    if refs == [] then 0 else (if resolve(refs[0].path).ok then 1 else 0) + OkCount(resolve, refs[1..])
  }

  /** The references of a list of mismatches, in order. */
  function MismatchRefs(ms: seq<Mismatch>): (rs: seq<Ref>)
    ensures |rs| == |ms| && forall k :: 0 <= k < |ms| ==> rs[k] == ms[k].ref
    decreases |ms|
  {
    if ms == [] then [] else [ms[0].ref] + MismatchRefs(ms[1..])
  }

  /** Every reference lands in exactly one place: nowhere when it is an
      exact match, `missing` when it is not found, `mismatches` (with its
      corrected path) otherwise; each list keeps the order of `refs`.
      `resolve` is the resolver against `public/`. */
  function Classify(resolve: string -> Resolution, refs: seq<Ref>): (rep: Report)
    requires Consistent(resolve)
    ensures forall k :: 0 <= k < |rep.missing| ==>
      rep.missing[k] in refs && resolve(rep.missing[k].path).corrected.None?
    ensures forall k :: 0 <= k < |rep.mismatches| ==>
      && rep.mismatches[k].ref in refs
      && !resolve(rep.mismatches[k].ref.path).ok
      && resolve(rep.mismatches[k].ref.path).corrected == Some(rep.mismatches[k].corrected)
    ensures |rep.missing| + |rep.mismatches| + OkCount(resolve, refs) == |refs|
    decreases |refs|
  {
    if refs == [] then Report([], [])
    else
      var rest := Classify(resolve, refs[1..]);
      var r := refs[0];
      var res := resolve(r.path);
      assert forall x :: x in refs[1..] ==> x in refs;
      if res.corrected.None? then
        Report([r] + rest.missing, rest.mismatches)
      else if !res.ok then
        Report(rest.missing, [Mismatch(r, res.corrected.value)] + rest.mismatches)
      else
        rest
  }

  /** Nothing is lost: every reference that is not found is listed as
      missing, every one found only with another case is listed with its
      corrected path, and the missing list keeps the order of `refs`. */
  lemma {:induction false} ClassifyComplete(resolve: string -> Resolution, refs: seq<Ref>)
    requires Consistent(resolve)
    ensures var rep := Classify(resolve, refs);
      forall k :: 0 <= k < |refs| && resolve(refs[k].path).corrected.None? ==>
        refs[k] in rep.missing
    ensures var rep := Classify(resolve, refs);
      forall k ::
        (0 <= k < |refs| && !resolve(refs[k].path).ok && resolve(refs[k].path).corrected.Some?) ==>
          Mismatch(refs[k], resolve(refs[k].path).corrected.value) in rep.mismatches
    ensures IsSubseq(Classify(resolve, refs).missing, refs)
    decreases |refs|
  {
    if refs != [] {
      ClassifyComplete(resolve, refs[1..]);
      var rest := Classify(resolve, refs[1..]);
      var r := refs[0];
      assert forall k :: 1 <= k < |refs| ==> refs[k] == refs[1..][k - 1];
      SubseqOfTail(rest.missing, r, refs[1..]);
      assert [r] + refs[1..] == refs;
      if resolve(r.path).corrected.None? {
        assert ([r] + rest.missing)[1..] == rest.missing;
      }
    }
  }

  /** The mismatches are listed in the order of `refs`, which decides the
      fifty that are printed. */
  lemma {:induction false} ClassifyMismatchOrder(resolve: string -> Resolution, refs: seq<Ref>)
    requires Consistent(resolve)
    ensures IsSubseq(MismatchRefs(Classify(resolve, refs).mismatches), refs)
    decreases |refs|
  {
    if refs != [] {
      ClassifyMismatchOrder(resolve, refs[1..]);
      var rest := Classify(resolve, refs[1..]);
      var r := refs[0];
      var res := resolve(r.path);
      assert [r] + refs[1..] == refs;
      if res.corrected.Some? && !res.ok {
        var m := Mismatch(r, res.corrected.value);
        assert ([m] + rest.mismatches)[1..] == rest.mismatches;
        assert MismatchRefs([m] + rest.mismatches) == [r] + MismatchRefs(rest.mismatches);
        SubseqCons(r, MismatchRefs(rest.mismatches), refs[1..]);
      } else {
        SubseqOfTail(MismatchRefs(rest.mismatches), r, refs[1..]);
      }
    }
  }

  /** Both lists are empty exactly when every reference resolves exactly. */
  lemma CleanIff(resolve: string -> Resolution, refs: seq<Ref>)
    requires Consistent(resolve)
    ensures var rep := Classify(resolve, refs);
      rep.missing == [] && rep.mismatches == [] <==>
        forall k :: 0 <= k < |refs| ==> resolve(refs[k].path).ok
  {
    var rep := Classify(resolve, refs);
    if rep.missing != [] {
      var k :| 0 <= k < |refs| && refs[k] == rep.missing[0];
      assert !resolve(refs[k].path).ok;
    } else if rep.mismatches != [] {
      var k :| 0 <= k < |refs| && refs[k] == rep.mismatches[0].ref;
      assert !resolve(refs[k].path).ok;
    } else {
      ClassifyComplete(resolve, refs);
    }
  }

  /** One line of the error report. The exact wording and the printing of
      file paths are not modelled; the structure of the report is. */
  datatype Line =
    | NoPublicDir
    | MissingHeader
    | MissingEntry(ref: Ref)
    | MismatchHeader
    | MismatchEntry(ref: Ref, corrected: string)
    | AndMore(count: nat)

  predicate IsEntry(l: Line) { l.MissingEntry? || l.MismatchEntry? }

  /** The count announced by the `... and N more` lines. */
  function MoreCount(ls: seq<Line>): nat
    decreases |ls|
  {
    if ls == [] then 0 else (if ls[0].AndMore? then ls[0].count else 0) + MoreCount(ls[1..])
  }

  function Min(a: nat, b: nat): nat { if a <= b then a else b }

  /** A headed list: nothing for no entries, otherwise the header, the
      first `ListCap` entries and, when some are left over, a line saying
      how many. */
  function Section(header: Line, entries: seq<Line>): (ls: seq<Line>)
    ensures entries == [] <==> ls == []
    ensures entries != [] ==> ls[0] == header
  {
    if entries == [] then []
    else
      var shown := Min(|entries|, ListCap);
      [header] + entries[..shown] + (if |entries| > ListCap then [AndMore(|entries| - ListCap)] else [])
  }

  lemma {:induction false} MoreCountAppend(a: seq<Line>, b: seq<Line>)
    ensures MoreCount(a + b) == MoreCount(a) + MoreCount(b)
    decreases |a|
  {
    if a == [] {
      assert a + b == b;
    } else {
      assert (a + b)[1..] == a[1..] + b;
      MoreCountAppend(a[1..], b);
    }
  }

  lemma {:induction false} EntriesCounts(es: seq<Line>)
    requires forall k :: 0 <= k < |es| ==> IsEntry(es[k])
    ensures Count(es, IsEntry) == |es| && MoreCount(es) == 0
    decreases |es|
  {
    if es != [] {
      EntriesCounts(es[1..]);
    }
  }

  /** No entry is silently dropped: a section lists at most `ListCap`
      entries, those are the first ones in order, and the listed entries
      plus the announced remainder are all of them. */
  lemma SectionAccounts(header: Line, entries: seq<Line>)
    requires !IsEntry(header) && !header.AndMore?
    requires forall k :: 0 <= k < |entries| ==> IsEntry(entries[k])
    ensures var ls := Section(header, entries);
      && Count(ls, IsEntry) <= ListCap
      && Count(ls, IsEntry) + MoreCount(ls) == |entries|
      && (entries != [] ==> ls[1..1 + Count(ls, IsEntry)] == entries[..Count(ls, IsEntry)])
  {
    if entries != [] {
      var shown := Min(|entries|, ListCap);
      var tail: seq<Line> := if |entries| > ListCap then [AndMore(|entries| - ListCap)] else [];
      var ls := Section(header, entries);
      assert ls == [header] + entries[..shown] + tail;
      CountAppend([header] + entries[..shown], tail, IsEntry);
      CountAppend([header], entries[..shown], IsEntry);
      MoreCountAppend([header] + entries[..shown], tail);
      MoreCountAppend([header], entries[..shown]);
      EntriesCounts(entries[..shown]);
      assert Count([header], IsEntry) == 0;
      assert Count(tail, IsEntry) == 0;
    }
  }

  function MissingLines(refs: seq<Ref>): (ls: seq<Line>)
    ensures |ls| == |refs|
    ensures forall k :: 0 <= k < |refs| ==> ls[k] == MissingEntry(refs[k])
  {
    seq(|refs|, k requires 0 <= k < |refs| => MissingEntry(refs[k]))
  }

  function MismatchLines(ms: seq<Mismatch>): (ls: seq<Line>)
    ensures |ls| == |ms|
    ensures forall k :: 0 <= k < |ms| ==> ls[k] == MismatchEntry(ms[k].ref, ms[k].corrected)
  {
    seq(|ms|, k requires 0 <= k < |ms| => MismatchEntry(ms[k].ref, ms[k].corrected))
  }

  /** The error report: the missing section, then the mismatch section. */
  function ReportLines(rep: Report): seq<Line> {
    Section(MissingHeader, MissingLines(rep.missing)) +
    Section(MismatchHeader, MismatchLines(rep.mismatches))
  }

  /** The report accounts for every failure: each is an entry or counted
      in a `... and N more` line, with at most fifty entries per section. */
  lemma ReportCounts(rep: Report)
    ensures var ls := ReportLines(rep);
      && Count(ls, IsEntry) + MoreCount(ls) == |rep.missing| + |rep.mismatches|
      && Count(ls, IsEntry) <= 2 * ListCap
  {
    var s1 := Section(MissingHeader, MissingLines(rep.missing));
    var s2 := Section(MismatchHeader, MismatchLines(rep.mismatches));
    SectionAccounts(MissingHeader, MissingLines(rep.missing));
    SectionAccounts(MismatchHeader, MismatchLines(rep.mismatches));
    CountAppend(s1, s2, IsEntry);
    MoreCountAppend(s1, s2);
  }

  /** The entries printed are the first fifty of each list, in order: the
      missing section opens the report, and the mismatch section follows
      it. */
  lemma ReportOrder(rep: Report)
    ensures var ls := ReportLines(rep);
      var n1 := Min(|rep.missing|, ListCap);
      rep.missing != [] ==>
        1 + n1 <= |ls| && ls[..1 + n1] == [MissingHeader] + MissingLines(rep.missing)[..n1]
    ensures var ls := ReportLines(rep);
      var s1 := |Section(MissingHeader, MissingLines(rep.missing))|;
      var n2 := Min(|rep.mismatches|, ListCap);
      rep.mismatches != [] ==>
        s1 + 1 + n2 <= |ls| &&
        ls[s1..s1 + 1 + n2] == [MismatchHeader] + MismatchLines(rep.mismatches)[..n2]
  {
    var s1 := Section(MissingHeader, MissingLines(rep.missing));
    var s2 := Section(MismatchHeader, MismatchLines(rep.mismatches));
    assert ReportLines(rep) == s1 + s2;
    assert (s1 + s2)[|s1|..] == s2;
  }

  /** What a run produces: the exit status and the lines written to the
      error stream. */
  datatype Outcome = Outcome(code: int, lines: seq<Line>)

  /** The resolver against the directory `pub`. */
  function Resolver(fold: string -> string, pub: Node): (resolve: string -> Resolution)
    ensures Consistent(resolve)
    ensures forall p :: resolve(p) == Resolve(fold, pub, p)
  {
    (p: string) => Resolve(fold, pub, p)
  }

  /** `main` on a project tree. The run succeeds exactly when `public/`
      exists and every reference found resolves with exactly its case; a
      successful run writes nothing. A failing run with `public/` prints
      the missing section and then the mismatch section. */
  function Run(fold: string -> string, repo: Node): (o: Outcome)
    ensures o.code == 0 || o.code == 1
    ensures o.code == 0 <==>
      Child(repo, "public").Some? &&
      var pub := Child(repo, "public").value;
      var refs := FindRefs(repo);
      forall k :: 0 <= k < |refs| ==> Resolve(fold, pub, refs[k].path).ok
    ensures o.code == 0 ==> o.lines == []
    ensures Child(repo, "public").None? ==> o == Outcome(1, [NoPublicDir])
    ensures Child(repo, "public").Some? ==>
      o.lines == ReportLines(Classify(Resolver(fold, Child(repo, "public").value), FindRefs(repo)))
  {
    match Child(repo, "public")
    case None => Outcome(1, [NoPublicDir])
    case Some(pub) =>
      var refs := FindRefs(repo);
      var resolve := Resolver(fold, pub);
      var rep := Classify(resolve, refs);
      CleanIff(resolve, refs);
      if rep.missing == [] && rep.mismatches == [] then
        Outcome(0, [])
      else
        Outcome(1, ReportLines(rep))
  }

  /** A run with `public/` accounts for every reference found: each is
      printed as an entry, counted in a `... and N more` line, or resolves
      exactly. */
  lemma RunAccounts(fold: string -> string, repo: Node)
    requires Child(repo, "public").Some?
    ensures var o := Run(fold, repo);
      var refs := FindRefs(repo);
      && Count(o.lines, IsEntry) + MoreCount(o.lines) +
           OkCount(Resolver(fold, Child(repo, "public").value), refs) == |refs|
      && Count(o.lines, IsEntry) <= 2 * ListCap
  {
    var resolve := Resolver(fold, Child(repo, "public").value);
    ReportCounts(Classify(resolve, FindRefs(repo)));
  }
}
