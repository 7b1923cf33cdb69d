/** The filter state and query of the past-teams page
    (`app/people/past-teams/page.tsx`): which years, semester and program
    are selected, how the chips change that selection, which rosters and
    members are shown, and how members are grouped by team. */
module PastTeams {
  import opened Wrappers
  import opened Seqs
  import opened TeamsData

  /** The year selection: every year, or a set of years. The page never
      stores an empty set. */
  datatype YearSel = AllYears | Years(ys: set<int>)

  predicate ValidYearSel(s: YearSel) {
    s.Years? ==> s.ys != {}
  }

  datatype SemesterSel = AllSemesters | OnlySemester(semester: Semester)

  /** A program chip's key. The chip row also offers `eir`, which is not a
      key of the program-filter table. */
  datatype ProgramChoice = Program(filter: ProgramFilter) | Eir

  datatype Filters = Filters(years: YearSel, semester: SemesterSel, program: ProgramChoice)

  /** `toggleYear`: from "all" select just this year; otherwise flip this
      year's membership, and fall back to "all" when the last year goes. */
  function ToggleYear(s: YearSel, y: int): (r: YearSel)
    ensures ValidYearSel(r)
    ensures r.AllYears? <==> s == Years({y})
    ensures r.Years? ==> (y in r.ys <==> !(s.Years? && y in s.ys))
    ensures r.Years? ==> forall z :: z != y ==> (z in r.ys <==> s.Years? && z in s.ys)
  {
    match s
    case AllYears => Years({y})
    case Years(ys) =>
      if y in ys then
        var next := ys - {y};
        if |next| == 0 then
          assert ys == {y};
          AllYears
        else
          assert ys != {y};
          Years(next)
      else Years(ys + {y})
  }

  /** Toggling the same year twice restores any state the page can be in. */
  lemma ToggleYearTwice(s: YearSel, y: int)
    requires ValidYearSel(s)
    ensures ToggleYear(ToggleYear(s, y), y) == s
  {
    if s.Years? {
      var once := ToggleYear(s, y);
      if once.Years? {
        assert ToggleYear(once, y).ys == s.ys;
      }
    }
  }

  /** The Spring and Fall chips: clicking the active one resets the
      semester filter, clicking the other selects it. */
  function SemesterChip(cur: SemesterSel, s: Semester): (r: SemesterSel)
    ensures r.AllSemesters? <==> cur == OnlySemester(s)
    ensures r.OnlySemester? ==> r.semester == s
  {
    if cur == OnlySemester(s) then AllSemesters else OnlySemester(s)
  }

  /** A program chip: clicking the active one resets the program filter,
      except that "all" stays "all"; any other chip selects its key. */
  function ProgramChip(cur: ProgramChoice, key: ProgramChoice): (r: ProgramChoice)
    ensures r == Program(AllPrograms) <==> key == Program(AllPrograms) || cur == key
    ensures r != Program(AllPrograms) ==> r == key
  {
    if cur == key && key != Program(AllPrograms) then Program(AllPrograms) else key
  }

  /** The "Clear all" button. */
  function ClearFilters(): (f: Filters)
    ensures !HasActiveFilters(f)
  {
    Filters(AllYears, AllSemesters, Program(AllPrograms))
  }

  predicate HasActiveFilters(f: Filters) {
    f.years != AllYears || f.semester != AllSemesters || f.program != Program(AllPrograms)
  }

  /** A state without active filters is the cleared state. */
  lemma InactiveIsCleared(f: Filters)
    ensures !HasActiveFilters(f) <==> f == ClearFilters()
  {
  }

  /** The year and semester tests of the first `filter` pass. */
  predicate SemesterPasses(f: Filters, d: SemesterData) {
    && (f.years.AllYears? || d.year in f.years.ys)
    && (f.semester.AllSemesters? || d.semester == f.semester.semester)
  }

  /** `programFilterTeams[selectedProgram]`: undefined for `eir`. */
  function AllowedTeams(p: ProgramChoice): (r: Option<TeamSet>)
    ensures r.None? <==> p == Eir
    ensures p.Program? ==> r == Some(ProgramFilterTeams(p.filter))
  {
    match p
    case Eir => None
    case Program(f) => Some(ProgramFilterTeams(f))
  }

  predicate Admits(ts: TeamSet, m: Member) {
    ts.AllTeams? || m.team in ts.teams
  }

  /** The members a team set lets through, in roster order. */
  function KeepMembers(ts: TeamSet, ms: seq<Member>): (r: seq<Member>)
    ensures IsSubseq(r, ms)
    ensures forall k :: 0 <= k < |r| ==> Admits(ts, r[k])
    ensures forall k :: 0 <= k < |ms| && Admits(ts, ms[k]) ==> ms[k] in r
    ensures ts.AllTeams? ==> r == ms
    decreases |ms|
  {
    if ms == [] then []
    else
      var rest := KeepMembers(ts, ms[1..]);
      assert forall k :: 1 <= k < |ms| ==> ms[k] == ms[1..][k - 1];
      assert [ms[0]] + ms[1..] == ms;
      if Admits(ts, ms[0]) then
        assert ([ms[0]] + rest)[1..] == rest;
        [ms[0]] + rest
      else
        SubseqOfTail(rest, ms[0], ms[1..]);
        rest
  }

  /** An admitted member is kept as often as the roster lists it, any
      other not at all. */
  lemma {:induction false} KeepMembersCount(ts: TeamSet, ms: seq<Member>)
    ensures forall m :: multiset(KeepMembers(ts, ms))[m] == if Admits(ts, m) then multiset(ms)[m] else 0
    decreases |ms|
  {
    if ms != [] {
      KeepMembersCount(ts, ms[1..]);
      assert [ms[0]] + ms[1..] == ms;
      assert multiset(ms) == multiset([ms[0]]) + multiset(ms[1..]);
      var rest := KeepMembers(ts, ms[1..]);
      if Admits(ts, ms[0]) {
        assert KeepMembers(ts, ms) == [ms[0]] + rest;
        assert multiset(KeepMembers(ts, ms)) == multiset([ms[0]]) + multiset(rest);
      } else {
        assert KeepMembers(ts, ms) == rest;
      }
    }
  }

  /** The roster kept for one semester: its members narrowed to the
      allowed teams. */
  function Narrow(ts: TeamSet, d: SemesterData): SemesterData {
    d.(members := KeepMembers(ts, d.members))
  }

  function Key(d: SemesterData): (Semester, int) { (d.semester, d.year) }

  function Keys(data: seq<SemesterData>): (r: seq<(Semester, int)>)
    ensures |r| == |data|
    ensures forall k :: 0 <= k < |data| ==> r[k] == Key(data[k])
  {
    seq(|data|, k requires 0 <= k < |data| => Key(data[k]))
  }

  /** The three steps of `filteredData` for a known team set: keep the
      semesters passing the year and semester tests, narrow their members,
      and drop the semesters left empty. Every shown roster is a passing
      semester narrowed and non-empty, and every such semester is shown. */
  function Shown(f: Filters, ts: TeamSet, data: seq<SemesterData>): (r: seq<SemesterData>)
    ensures forall k :: 0 <= k < |r| ==> |r[k].members| > 0 && FromPassing(f, ts, data, r[k])
    ensures forall i :: 0 <= i < |data| && SemesterPasses(f, data[i]) && |Narrow(ts, data[i]).members| > 0 ==>
      Narrow(ts, data[i]) in r
    decreases |data|
  {
    if data == [] then []
    else
      var d := data[0];
      var rest := Shown(f, ts, data[1..]);
      ShownStep(f, ts, data, rest);
      if SemesterPasses(f, d) && |Narrow(ts, d).members| > 0 then [Narrow(ts, d)] + rest else rest
  }

  /** `x` is some passing semester of `data` with its members narrowed. */
  ghost predicate FromPassing(f: Filters, ts: TeamSet, data: seq<SemesterData>, x: SemesterData) {
    exists i :: 0 <= i < |data| && SemesterPasses(f, data[i]) && x == Narrow(ts, data[i])
  }

  lemma ShownStep(f: Filters, ts: TeamSet, data: seq<SemesterData>, rest: seq<SemesterData>)
    requires |data| > 0
    requires forall k :: 0 <= k < |rest| ==> FromPassing(f, ts, data[1..], rest[k])
    requires forall i ::
      (0 <= i < |data[1..]| && SemesterPasses(f, data[1..][i]) && |Narrow(ts, data[1..][i]).members| > 0) ==>
        Narrow(ts, data[1..][i]) in rest
    ensures forall k :: 0 <= k < |rest| ==> FromPassing(f, ts, data, rest[k])
    ensures forall i :: 1 <= i < |data| && SemesterPasses(f, data[i]) && |Narrow(ts, data[i]).members| > 0 ==>
      Narrow(ts, data[i]) in rest
  {
    forall k | 0 <= k < |rest| ensures FromPassing(f, ts, data, rest[k]) {
      assert FromPassing(f, ts, data[1..], rest[k]);
      var i :| 0 <= i < |data[1..]| && SemesterPasses(f, data[1..][i]) && rest[k] == Narrow(ts, data[1..][i]);
      assert data[i + 1] == data[1..][i];
      assert 0 <= i + 1 < |data| && SemesterPasses(f, data[i + 1]) && rest[k] == Narrow(ts, data[i + 1]);
    }
    forall i | 1 <= i < |data| && SemesterPasses(f, data[i]) && |Narrow(ts, data[i]).members| > 0
      ensures Narrow(ts, data[i]) in rest
    {
      assert data[1..][i - 1] == data[i];
    }
  }

  /** A shown member belongs to an admitted team. */
  lemma ShownMembersAdmitted(f: Filters, ts: TeamSet, data: seq<SemesterData>, k: nat, q: nat)
    requires k < |Shown(f, ts, data)| && q < |Shown(f, ts, data)[k].members|
    ensures Admits(ts, Shown(f, ts, data)[k].members[q])
  {
  }

  /** Shown rosters keep table order: their (semester, year) keys form a
      subsequence of the table's. */
  lemma {:induction false} ShownKeepsOrder(f: Filters, ts: TeamSet, data: seq<SemesterData>)
    ensures IsSubseq(Keys(Shown(f, ts, data)), Keys(data))
    decreases |data|
  {
    if data != [] {
      var d := data[0];
      var rest := Shown(f, ts, data[1..]);
      ShownKeepsOrder(f, ts, data[1..]);
      ShownCons(f, ts, data);
      assert [d] + data[1..] == data;
      KeysCons(d, data[1..]);
      var keys := [Key(d)] + Keys(data[1..]);
      assert Keys(data) == keys;
      if SemesterPasses(f, d) && |Narrow(ts, d).members| > 0 {
        KeysCons(Narrow(ts, d), rest);
        assert Key(Narrow(ts, d)) == Key(d);
        SubseqCons(Key(d), Keys(rest), Keys(data[1..]));
        assert Keys(Shown(f, ts, data)) == [Key(d)] + Keys(rest);
      } else {
        SubseqOfTail(Keys(rest), Key(d), Keys(data[1..]));
        assert Keys(Shown(f, ts, data)) == Keys(rest);
      }
    }
  }

  /** One step of `Shown`: the first semester, narrowed, goes in front
      when it passes and keeps members. */
  lemma ShownCons(f: Filters, ts: TeamSet, data: seq<SemesterData>)
    requires data != []
    ensures Shown(f, ts, data) ==
      if SemesterPasses(f, data[0]) && |Narrow(ts, data[0]).members| > 0
      then [Narrow(ts, data[0])] + Shown(f, ts, data[1..])
      else Shown(f, ts, data[1..])
  {
  }

  lemma KeysCons(d: SemesterData, data: seq<SemesterData>)
    ensures Keys([d] + data) == [Key(d)] + Keys(data)
  {
    var l, r := Keys([d] + data), [Key(d)] + Keys(data);
    forall k | 0 <= k < |l| ensures l[k] == r[k] {
      if k > 0 {
        assert ([d] + data)[k] == data[k - 1];
      }
    }
    assert l == r;
  }

  /** `filteredData`. With `eir` selected the member filter calls
      `.includes` on `undefined`, which throws as soon as one passing
      semester has a member; this is `None`. */
  function FilteredData(f: Filters, data: seq<SemesterData>): (r: Option<seq<SemesterData>>)
    ensures r.None? <==>
      f.program == Eir && exists k :: 0 <= k < |data| && SemesterPasses(f, data[k]) && |data[k].members| > 0
    ensures f.program.Program? ==> r == Some(Shown(f, ProgramFilterTeams(f.program.filter), data))
    ensures f.program == Eir && r.Some? ==> r.value == []
  {
    match AllowedTeams(f.program)
    case Some(ts) => Some(Shown(f, ts, data))
    case None =>
      if exists k :: 0 <= k < |data| && SemesterPasses(f, data[k]) && |data[k].members| > 0 then None
      else Some([])
  }

  /** Choosing the `eir` chip with no other filter on makes the page's
      query throw, since the newest roster has members. */
  lemma EirChipThrows()
    ensures FilteredData(Filters(AllYears, AllSemesters, Eir), TeamsDataTable) == None
  {
    assert SemesterPasses(Filters(AllYears, AllSemesters, Eir), TeamsDataTable[0]);
    assert |TeamsDataTable[0].members| > 0;
  }

  /** The evidently intended query: a program key with no table entry
      covers no team, so the page shows nothing instead of throwing. */
  function AllowedTeamsFixed(p: ProgramChoice): (r: TeamSet)
    ensures p.Program? ==> r == ProgramFilterTeams(p.filter)
    ensures p == Eir ==> r == Teams([])
  {
    match p
    case Eir => Teams([])
    case Program(f) => ProgramFilterTeams(f)
  }

  function FilteredDataFixed(f: Filters, data: seq<SemesterData>): (r: seq<SemesterData>)
    ensures FilteredData(f, data).Some? ==> FilteredData(f, data) == Some(r)
    ensures f.program == Eir ==> r == []
  {
    var r := Shown(f, AllowedTeamsFixed(f.program), data);
    if f.program == Eir then EirShowsNothing(f, data); r else r
  }

  lemma {:induction false} KeepNone(ms: seq<Member>)
    ensures KeepMembers(Teams([]), ms) == []
    decreases |ms|
  {
    if ms != [] {
      KeepNone(ms[1..]);
    }
  }

  lemma {:induction false} EirShowsNothing(f: Filters, data: seq<SemesterData>)
    ensures Shown(f, Teams([]), data) == []
    decreases |data|
  {
    if data != [] {
      EirShowsNothing(f, data[1..]);
      KeepNone(data[0].members);
    }
  }

  function KeyRank(k: (Semester, int)): int {
    k.1 * 2 + (if k.0 == Fall then 1 else 0)
  }

  predicate KeysNewestFirst(ks: seq<(Semester, int)>) {
    forall i, j :: 0 <= i < j < |ks| ==> KeyRank(ks[i]) > KeyRank(ks[j])
  }

  lemma {:induction false} SubseqMembers<T>(a: seq<T>, b: seq<T>, x: T)
    requires IsSubseq(a, b) && x in a
    ensures x in b
    decreases |b|
  {
    if a[0] == b[0] {
      if x != a[0] {
        SubseqMembers(a[1..], b[1..], x);
      }
    } else {
      SubseqMembers(a, b[1..], x);
    }
  }

  /** A subsequence of a newest-first list is newest first. */
  lemma {:induction false} SubseqNewestFirst(a: seq<(Semester, int)>, b: seq<(Semester, int)>)
    requires IsSubseq(a, b) && KeysNewestFirst(b)
    ensures KeysNewestFirst(a)
    decreases |b|
  {
    if a != [] {
      assert KeysNewestFirst(b[1..]) by {
        forall i, j | 0 <= i < j < |b[1..]| ensures KeyRank(b[1..][i]) > KeyRank(b[1..][j]) {
          assert b[1..][i] == b[i + 1] && b[1..][j] == b[j + 1];
        }
      }
      if a[0] == b[0] {
        SubseqNewestFirst(a[1..], b[1..]);
        forall j | 1 <= j < |a| ensures KeyRank(a[0]) > KeyRank(a[j]) {
          assert a[j] == a[1..][j - 1];
          SubseqMembers(a[1..], b[1..], a[j]);
          var q :| 0 <= q < |b[1..]| && b[1..][q] == a[j];
          assert b[q + 1] == a[j];
        }
        forall i, j | 0 <= i < j < |a| ensures KeyRank(a[i]) > KeyRank(a[j]) {
          if i > 0 {
            assert a[i] == a[1..][i - 1] && a[j] == a[1..][j - 1];
          }
        }
      } else {
        SubseqNewestFirst(a, b[1..]);
      }
    }
  }

  /** Under a newest-first table the shown rosters are newest first. */
  lemma ShownNewestFirst(f: Filters, ts: TeamSet, data: seq<SemesterData>)
    requires NewestFirst(data)
    ensures NewestFirst(Shown(f, ts, data))
  {
    var r := Shown(f, ts, data);
    ShownKeepsOrder(f, ts, data);
    KeysNewestFirstIff(data);
    SubseqNewestFirst(Keys(r), Keys(data));
    KeysNewestFirstIff(r);
  }

  /** Ordering the keys orders the semesters. */
  lemma KeysNewestFirstIff(data: seq<SemesterData>)
    ensures KeysNewestFirst(Keys(data)) <==> NewestFirst(data)
  {
    forall k | 0 <= k < |data| ensures KeyRank(Keys(data)[k]) == Rank(data[k]) {
    }
  }

  /** `years`: the distinct years of the table, newest first. */
  function YearsOf(data: seq<SemesterData>): (r: seq<int>)
    ensures forall i, j :: 0 <= i < j < |r| ==> r[i] > r[j]
    ensures forall y :: y in r <==> exists k :: 0 <= k < |data| && data[k].year == y
    decreases |data|
  {
    if data == [] then []
    else
      var rest := YearsOf(data[1..]);
      assert forall k :: 1 <= k < |data| ==> data[k] == data[1..][k - 1];
      assert forall k :: 0 <= k < |data[1..]| ==> data[1..][k] == data[k + 1];
      InsertDesc(rest, data[0].year)
  }

  /** Inserts `y` into a strictly decreasing list unless it is already
      there. */
  function InsertDesc(xs: seq<int>, y: int): (r: seq<int>)
    requires forall i, j :: 0 <= i < j < |xs| ==> xs[i] > xs[j]
    ensures forall i, j :: 0 <= i < j < |r| ==> r[i] > r[j]
    ensures forall z :: z in r <==> z in xs || z == y
    decreases |xs|
  {
    if xs == [] then [y]
    else if y > xs[0] then [y] + xs
    else if y == xs[0] then xs
    else
      var rest := InsertDesc(xs[1..], y);
      assert forall z :: z in xs <==> z == xs[0] || z in xs[1..];
      assert forall k :: 0 <= k < |rest| ==> rest[k] in rest;
      [xs[0]] + rest
  }

  /** A group heading of the roster. `TEAM_DISPLAY_ORDER` also lists
      `startup` and `investing`, which no member's team can equal. */
  datatype GroupKey = Startup | Investing | TeamGroup(team: Team)

  const TeamDisplayOrder: seq<GroupKey> := [
    Startup, Investing, TeamGroup(ProductTeam), TeamGroup(MentorshipAdvanced),
    TeamGroup(MentorshipIntro), TeamGroup(GradBootcamp), TeamGroup(CaseComp)
  ]

  predicate KeyMatches(key: GroupKey, m: Member) {
    key.TeamGroup? && key.team == m.team
  }

  datatype Group = Group(key: GroupKey, members: seq<Member>)

  /** The members under one heading, in roster order. */
  function OfKey(ms: seq<Member>, key: GroupKey): (r: seq<Member>)
    ensures forall k :: 0 <= k < |r| ==> KeyMatches(key, r[k])
    decreases |ms|
  {
    if ms == [] then []
    else (if KeyMatches(key, ms[0]) then [ms[0]] else []) + OfKey(ms[1..], key)
  }

  /** A heading holds every copy of a matching member and nothing else. */
  lemma {:induction false} OfKeyCount(ms: seq<Member>, key: GroupKey, x: Member)
    ensures multiset(OfKey(ms, key))[x] == if KeyMatches(key, x) then multiset(ms)[x] else 0
    decreases |ms|
  {
    if ms != [] {
      OfKeyCount(ms[1..], key, x);
      assert ms == [ms[0]] + ms[1..];
    }
  }

  function GroupsFor(keys: seq<GroupKey>, ms: seq<Member>): (r: seq<Group>)
    ensures |r| == |keys|
    ensures forall k :: 0 <= k < |keys| ==> r[k].key == keys[k]
    decreases |keys|
  {
    if keys == [] then [] else [Group(keys[0], OfKey(ms, keys[0]))] + GroupsFor(keys[1..], ms)
  }

  predicate NonEmptyGroup(g: Group) { |g.members| > 0 }

  lemma {:induction false} GroupsForMatch(keys: seq<GroupKey>, ms: seq<Member>, k: nat, q: nat)
    requires k < |keys| && q < |GroupsFor(keys, ms)[k].members|
    ensures KeyMatches(keys[k], GroupsFor(keys, ms)[k].members[q])
    decreases |keys|
  {
    if k > 0 {
      GroupsForMatch(keys[1..], ms, k - 1, q);
    }
  }

  /** `teamGroups`: one group per display key, empty groups dropped. */
  function TeamGroups(ms: seq<Member>): (r: seq<Group>)
    ensures forall k :: 0 <= k < |r| ==> |r[k].members| > 0 && r[k].key in TeamDisplayOrder
    ensures forall k, q :: 0 <= k < |r| && 0 <= q < |r[k].members| ==> KeyMatches(r[k].key, r[k].members[q])
  {
    GroupsOf(TeamDisplayOrder, ms)
  }

  /** The non-empty groups for a list of keys, in key order. */
  function GroupsOf(keys: seq<GroupKey>, ms: seq<Member>): (r: seq<Group>)
    ensures forall k :: 0 <= k < |r| ==> |r[k].members| > 0 && r[k].key in keys
    ensures forall k, q :: 0 <= k < |r| && 0 <= q < |r[k].members| ==> KeyMatches(r[k].key, r[k].members[q])
  {
    var all := GroupsFor(keys, ms);
    var r := Filter(all, NonEmptyGroup);
    forall k | 0 <= k < |r| ensures r[k].key in keys {
      assert r[k] in all;
      var j :| 0 <= j < |all| && all[j] == r[k];
      assert keys[j] in keys;
    }
    forall k, q | 0 <= k < |r| && 0 <= q < |r[k].members|
      ensures KeyMatches(r[k].key, r[k].members[q])
    {
      assert r[k] in all;
      var j :| 0 <= j < |all| && all[j] == r[k];
      GroupsForMatch(keys, ms, j, q);
    }
    r
  }

  function Flatten(gs: seq<Group>): seq<Member>
    decreases |gs|
  {
    if gs == [] then [] else gs[0].members + Flatten(gs[1..])
  }

  /** Number of keys a member's team matches. */
  function KeyHits(keys: seq<GroupKey>, m: Member): nat
    decreases |keys|
  {
    if keys == [] then 0 else (if KeyMatches(keys[0], m) then 1 else 0) + KeyHits(keys[1..], m)
  }

  /** Over keys matching `x` at most once, the groups hold every copy of
      `x` when one key matches and none otherwise. */
  lemma {:induction false} FlattenGroupsFor(keys: seq<GroupKey>, ms: seq<Member>, x: Member)
    requires KeyHits(keys, x) <= 1
    ensures multiset(Flatten(GroupsFor(keys, ms)))[x] == if KeyHits(keys, x) == 1 then multiset(ms)[x] else 0
    decreases |keys|
  {
    if keys != [] {
      var gs := GroupsFor(keys, ms);
      assert gs[1..] == GroupsFor(keys[1..], ms);
      FlattenGroupsFor(keys[1..], ms, x);
      OfKeyCount(ms, keys[0], x);
      assert multiset(Flatten(gs)) == multiset(OfKey(ms, keys[0])) + multiset(Flatten(gs[1..]));
    }
  }

  lemma {:induction false} FlattenDropsEmpty(gs: seq<Group>)
    ensures Flatten(Filter(gs, NonEmptyGroup)) == Flatten(gs)
    decreases |gs|
  {
    if gs != [] {
      FlattenDropsEmpty(gs[1..]);
      if !NonEmptyGroup(gs[0]) {
        assert gs[0].members == [];
      }
    }
  }

  /** Every team is listed exactly once in the display order. */
  lemma DisplayOrderCoversTeams(m: Member)
    ensures KeyHits(TeamDisplayOrder, m) == 1
  {
  }

  /** The groups partition the semester's members: together they hold
      every member exactly as often as the roster does. */
  lemma GroupsPartition(ms: seq<Member>)
    ensures multiset(Flatten(TeamGroups(ms))) == multiset(ms)
  {
    var all := GroupsFor(TeamDisplayOrder, ms);
    FlattenDropsEmpty(all);
    assert Flatten(TeamGroups(ms)) == Flatten(all);
    forall x ensures multiset(Flatten(all))[x] == multiset(ms)[x] {
      DisplayOrderCoversTeams(x);
      FlattenGroupsFor(TeamDisplayOrder, ms, x);
    }
    assert multiset(Flatten(all)) == multiset(ms);
  }

  /** The groups follow the display order. */
  lemma GroupsInDisplayOrder(ms: seq<Member>)
    ensures IsSubseq(Keys2(TeamGroups(ms)), TeamDisplayOrder)
  {
    GroupsOfInKeyOrder(TeamDisplayOrder, ms);
  }

  /** The non-empty groups keep the order of their keys. */
  lemma GroupsOfInKeyOrder(keys: seq<GroupKey>, ms: seq<Member>)
    ensures IsSubseq(Keys2(GroupsOf(keys, ms)), keys)
  {
    var all := GroupsFor(keys, ms);
    FilterIsSubseq(all, NonEmptyGroup);
    SubseqMapsKeys(GroupsOf(keys, ms), all);
    assert Keys2(all) == keys;
  }

  function Keys2(gs: seq<Group>): (r: seq<GroupKey>)
    ensures |r| == |gs|
    ensures forall k :: 0 <= k < |gs| ==> r[k] == gs[k].key
  {
    seq(|gs|, k requires 0 <= k < |gs| => gs[k].key)
  }

  lemma {:induction false} SubseqMapsKeys(a: seq<Group>, b: seq<Group>)
    requires IsSubseq(a, b)
    ensures IsSubseq(Keys2(a), Keys2(b))
    decreases |b|
  {
    if a != [] && b != [] {
      assert Keys2(b)[1..] == Keys2(b[1..]);
      if a[0] == b[0] {
        assert Keys2(a)[1..] == Keys2(a[1..]);
        SubseqMapsKeys(a[1..], b[1..]);
      } else {
        SubseqMapsKeys(a, b[1..]);
        if Keys2(a)[0] == Keys2(b)[0] {
          SubseqDropFirst(Keys2(a), Keys2(b[1..]));
          assert Keys2(a)[1..] == Keys2(a[1..]);
        }
      }
    }
  }
}
