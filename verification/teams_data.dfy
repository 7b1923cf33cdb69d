/** The constant tables behind the past-teams page
    (`app/people/past-teams/teams-data.ts`): the team values, the program
    filters and the teams each covers, the display configuration, and the
    semester rosters. */
module TeamsData {
  import opened Text

  datatype Team = ProductTeam | MentorshipIntro | MentorshipAdvanced | GradBootcamp | CaseComp

  /** The filters a program chip can select. */
  datatype ProgramFilter = AllPrograms | ProductTeamPrograms | MentorshipPrograms | GradBootcampPrograms | CaseCompPrograms

  datatype Semester = Spring | Fall

  datatype Member = Member(name: string, team: Team)

  datatype SemesterData = SemesterData(semester: Semester, year: int, members: seq<Member>)

  /** What a program filter lets through: every team, or the listed ones. */
  datatype TeamSet = AllTeams | Teams(teams: seq<Team>)

  /** `programFilterTeams`: the "all" filter lets every team through and
      every other filter covers a non-empty list of teams. */
  function ProgramFilterTeams(f: ProgramFilter): (r: TeamSet)
    ensures r.AllTeams? <==> f == AllPrograms
    ensures r.Teams? ==> |r.teams| >= 1
  {
    match f
    case AllPrograms => AllTeams
    case ProductTeamPrograms => Teams([ProductTeam])
    case MentorshipPrograms => Teams([MentorshipIntro, MentorshipAdvanced])
    case GradBootcampPrograms => Teams([GradBootcamp])
    case CaseCompPrograms => Teams([CaseComp])
  }

  /** The filter whose list covers a team. */
  function FilterOf(t: Team): ProgramFilter {
    match t
    case ProductTeam => ProductTeamPrograms
    case MentorshipIntro => MentorshipPrograms
    case MentorshipAdvanced => MentorshipPrograms
    case GradBootcamp => GradBootcampPrograms
    case CaseComp => CaseCompPrograms
  }

  /** Every team is covered by exactly one filter other than "all", and
      the mentorship filter covers exactly the two mentorship teams. */
  lemma EachTeamInOneFilter(t: Team, f: ProgramFilter)
    ensures ProgramFilterTeams(f).Teams? && t in ProgramFilterTeams(f).teams <==> f == FilterOf(t)
    ensures t in ProgramFilterTeams(MentorshipPrograms).teams <==> t == MentorshipIntro || t == MentorshipAdvanced
  {
  }

  datatype TeamStyle = TeamStyle(caption: string, color: string)

  /** `teamConfig`: a label and a `#RRGGBB` colour for every team, with
      distinct labels. */
  function TeamConfig(t: Team): (r: TeamStyle)
    ensures IsHexColor(r.color)
    ensures |r.caption| >= 1
  {
    match t
    case ProductTeam => TeamStyle("Product Team", "#41C9C1")
    case MentorshipAdvanced => TeamStyle("Advanced Mentorship", "#5076DD")
    case MentorshipIntro => TeamStyle("Intro Mentorship", "#6966E3")
    case GradBootcamp => TeamStyle("Grad Bootcamp", "#41C9C1")
    case CaseComp => TeamStyle("Case Comp Winners", "#D4A843")
  }

  /** `programFilterLabels`: a distinct label for every filter. */
  function ProgramFilterLabel(f: ProgramFilter): (r: string)
    ensures |r| >= 1
  {
    match f
    case AllPrograms => "All Programs"
    case ProductTeamPrograms => "Product Team"
    case MentorshipPrograms => "Mentorship"
    case GradBootcampPrograms => "Grad Bootcamp"
    case CaseCompPrograms => "Case Comp"
  }

  /** No two teams share a caption and no two filters share a label. */
  lemma LabelsDistinct(t: Team, u: Team, f: ProgramFilter, g: ProgramFilter)
    ensures TeamConfig(t).caption == TeamConfig(u).caption ==> t == u
    ensures ProgramFilterLabel(f) == ProgramFilterLabel(g) ==> f == g
  {
  }

  /** Position of a semester in time: later semesters rank higher, and
      within a year fall comes after spring. */
  function Rank(d: SemesterData): int {
    d.year * 2 + (if d.semester == Fall then 1 else 0)
  }

  lemma RankInjective(a: SemesterData, b: SemesterData)
    ensures Rank(a) == Rank(b) <==> a.semester == b.semester && a.year == b.year
  {
  }

  predicate NewestFirst(data: seq<SemesterData>) {
    forall i, j :: 0 <= i < j < |data| ==> Rank(data[i]) > Rank(data[j])
  }

  predicate AdjacentNewestFirst(data: seq<SemesterData>) {
    forall i :: 0 <= i < |data| - 1 ==> Rank(data[i]) > Rank(data[i + 1])
  }

  /** Checking neighbours is enough: ranks that fall at every step fall
      between any two positions. */
  lemma {:induction false} AdjacentSuffices(data: seq<SemesterData>)
    requires AdjacentNewestFirst(data)
    ensures NewestFirst(data)
    decreases |data|
  {
    if |data| > 1 {
      AdjacentSuffices(data[1..]);
      forall i, j | 0 <= i < j < |data| ensures Rank(data[i]) > Rank(data[j]) {
        if i > 0 {
          assert data[i] == data[1..][i - 1] && data[j] == data[1..][j - 1];
        } else if j > 1 {
          assert data[1] == data[1..][0] && data[j] == data[1..][j - 1];
        }
      }
    }
  }

  /** `teamsData`, newest semester first. */
  const TeamsDataTable: seq<SemesterData> := [
    SemesterData(Fall, 2025, [
      Member("Emily Silkina", ProductTeam),
      Member("Prateek Nedungadi", ProductTeam),
      Member("Valerie Zou", ProductTeam),
      Member("Daniel Liang", ProductTeam),
      Member("Tarush Garg", ProductTeam),
      Member("Gavin Zhou", ProductTeam),
      Member("Theresa Yung", ProductTeam),
      Member("Pranava Manthena", ProductTeam),
      Member("Minsung Kim", MentorshipIntro),
      Member("Jack Knudsen", MentorshipIntro),
      Member("Ella Zhao", MentorshipIntro),
      Member("Anya Bose", MentorshipIntro),
      Member("Shivam Saxena", MentorshipIntro),
      Member("Sophia Xu", MentorshipIntro),
      Member("Peter Ma", MentorshipIntro),
      Member("Noa Yaron", MentorshipIntro),
      Member("Eric Li", MentorshipIntro),
      Member("Cailin O'Connell", MentorshipIntro),
      Member("Jaik Tom", MentorshipAdvanced),
      Member("Arnava Dekhne", MentorshipAdvanced),
      Member("Harrison Wong", MentorshipAdvanced),
      Member("Hemaang Patkar", MentorshipAdvanced),
      Member("Praagna Prasad Mokshagundam", MentorshipAdvanced),
      Member("Ada Cai", MentorshipAdvanced),
      Member("Jade Leong", MentorshipAdvanced),
      Member("Ian Davoren", MentorshipAdvanced),
      Member("Mohiuddin Syed", MentorshipAdvanced),
      Member("Ethan Lu", MentorshipAdvanced),
      Member("Phoebe Kim", MentorshipAdvanced),
      Member("Chloe Kim", GradBootcamp),
      Member("Dheeraj Maske", GradBootcamp),
      Member("Nawal Mahmood", GradBootcamp),
      Member("Chirag Dhiwar", GradBootcamp),
      Member("Tansin Taj", GradBootcamp),
      Member("Justin Seymour-Welch", GradBootcamp),
      Member("Michael Tirone", GradBootcamp),
      Member("Shravani Dorlikar", GradBootcamp),
      Member("Tanvish Tuplondhe", GradBootcamp),
      Member("Ryan Mehta", CaseComp),
      Member("Surya Newa", CaseComp),
      Member("Sean Park", CaseComp),
      Member("Xander Wanagel", CaseComp)
    ]),
    SemesterData(Spring, 2025, [
      Member("Sean Hu", ProductTeam),
      Member("Eason Wang", ProductTeam),
      Member("Danny Konovalov", ProductTeam),
      Member("Aashin Singhal", ProductTeam),
      Member("Serena Hu", ProductTeam),
      Member("Nitya Garg", ProductTeam),
      Member("Vivien Wang", ProductTeam),
      Member("Arehant Arun", ProductTeam),
      Member("Kevin Huang", MentorshipAdvanced),
      Member("Nevan Samaraweera", MentorshipAdvanced),
      Member("Nicole Wu", MentorshipAdvanced),
      Member("Alessandro Monke", MentorshipAdvanced),
      Member("Nicholai Kudriashov", MentorshipAdvanced),
      Member("Katie Tso", MentorshipAdvanced),
      Member("Namratha Shivani Nuthi", MentorshipAdvanced),
      Member("Ananya Thota", MentorshipAdvanced),
      Member("Niranjana Rau", MentorshipAdvanced),
      Member("Tanvi Bethi", MentorshipIntro),
      Member("Athul Radhakrishnan", MentorshipIntro),
      Member("Suhawni Narang", MentorshipIntro),
      Member("Eva Ma", MentorshipIntro),
      Member("Janhavi Tambe", MentorshipIntro),
      Member("Hien Nguyen", MentorshipIntro),
      Member("Adam Chang", MentorshipIntro),
      Member("Diya Hegde", MentorshipIntro),
      Member("Justin He", CaseComp),
      Member("Satvik Shrivastava", CaseComp),
      Member("Aashin Singhal", CaseComp),
      Member("Brian Zhou", CaseComp)
    ]),
    SemesterData(Fall, 2024, [
      Member("Soumya Medapati", ProductTeam),
      Member("Nihar Bagkar", ProductTeam),
      Member("Joshua Lee", ProductTeam),
      Member("Nicole Wu", ProductTeam),
      Member("Usman Abdullah", ProductTeam),
      Member("Arnav Sastry", ProductTeam),
      Member("Iris Zhuang", ProductTeam),
      Member("Siya Jain", ProductTeam),
      Member("Hendrix Farrell", ProductTeam),
      Member("Maggie Lu", ProductTeam),
      Member("AnMei Deck", CaseComp),
      Member("Anita Gao", CaseComp),
      Member("Maggie Lu", CaseComp),
      Member("Arnav Sastry", CaseComp)
    ]),
    SemesterData(Spring, 2024, []),
    SemesterData(Fall, 2023, []),
    SemesterData(Spring, 2023, []),
    SemesterData(Fall, 2022, []),
    SemesterData(Spring, 2022, []),
    SemesterData(Fall, 2021, [])  ]

  /** The rosters are listed newest first, so no (semester, year) pair
      repeats; the page relies on that pair as a unique key. */
  lemma TeamsDataOrdered()
    ensures NewestFirst(TeamsDataTable)
    ensures forall i, j :: 0 <= i < j < |TeamsDataTable| ==>
      TeamsDataTable[i].semester != TeamsDataTable[j].semester ||
      TeamsDataTable[i].year != TeamsDataTable[j].year
  {
    AdjacentSuffices(TeamsDataTable);
    forall i, j | 0 <= i < j < |TeamsDataTable|
      ensures TeamsDataTable[i].semester != TeamsDataTable[j].semester ||
        TeamsDataTable[i].year != TeamsDataTable[j].year
    {
      RankInjective(TeamsDataTable[i], TeamsDataTable[j]);
    }
  }

  /** Names are not unique within a semester: the same person can be
      listed on two teams of spring 2025. */
  lemma SameNameTwiceInSemester()
    ensures var ms := TeamsDataTable[1].members;
      ms[3].name == ms[27].name && ms[3].team != ms[27].team
  {
  }
}
