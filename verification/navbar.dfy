/** The site-wide navbar's choice of look from the current path: a
    program page gets the dark bar with the program's name, a people
    sub-page the light bar with its label, any other people page the
    light bar alone, and every other page the default bar. */
module Navbar {
  import opened Wrappers
  import opened Text

  const LightBlue := "#41C9C1"

  datatype Program = Program(slug: string, color: string)

  const Programs: seq<Program> := [
    Program("product-team", "#5076DD"),
    Program("mentorship", "#6966E3"),
    Program("grad-bootcamp", "#41C9C1")
  ]

  const PeopleRoutes: seq<string> := ["leadership", "teams", "community"]

  /** The suffix shown for each people route. */
  function PeopleLabel(route: string): (text: string)
    requires route in PeopleRoutes
  {
    if route == "leadership" then "e-board"
    else if route == "teams" then "leads"
    else "past-teams"
  }

  datatype Variant = DefaultVariant | Dark | Light

  /** The properties the navbar is rendered with. */
  datatype NavbarProps = NavbarProps(variant: Variant, logoSuffix: Option<string>,
                                     logoSuffixColor: Option<string>)

  /** `slugs.find(slug => path.startsWith(base + slug))`, as an index. */
  function FirstMatch(slugs: seq<string>, base: string, path: string): (r: Option<nat>)
    ensures r.Some? ==> r.value < |slugs| && StartsWith(path, base + slugs[r.value])
    ensures r.Some? ==> forall j :: 0 <= j < r.value ==> !StartsWith(path, base + slugs[j])
    ensures r.None? ==> forall j :: 0 <= j < |slugs| ==> !StartsWith(path, base + slugs[j])
    decreases |slugs|
  {
    if |slugs| == 0 then None
    else if StartsWith(path, base + slugs[0]) then Some(0)
    else match FirstMatch(slugs[1..], base, path)
      case None => None
      case Some(i) => Some(i + 1)
  }

  function ProgramSlugs(): (r: seq<string>)
    ensures |r| == |Programs|
    ensures forall i :: 0 <= i < |r| ==> r[i] == Programs[i].slug
  {
    seq(|Programs|, i requires 0 <= i < |Programs| => Programs[i].slug)
  }

  /** `RootNavbar()` for the path `pathname`. */
  function RootNavbar(pathname: string): (p: NavbarProps)
    ensures p.variant == Dark <==> FirstMatch(ProgramSlugs(), "/programs/", pathname).Some?
    ensures p.variant == Dark ==>
      var prog := Programs[FirstMatch(ProgramSlugs(), "/programs/", pathname).value];
      p.logoSuffix == Some(prog.slug) && p.logoSuffixColor == Some(prog.color)
    ensures p.variant == Light ==> p.logoSuffixColor == Some(LightBlue) && StartsWith(pathname, "/people")
    ensures p.variant == DefaultVariant ==>
      p == NavbarProps(DefaultVariant, None, None) && !StartsWith(pathname, "/people")
  {
    var peopleMatch := FirstMatch(PeopleRoutes, "/people/", pathname);
    var programMatch := FirstMatch(ProgramSlugs(), "/programs/", pathname);
    if programMatch.Some? then
      var prog := Programs[programMatch.value];
      NavbarProps(Dark, Some(prog.slug), Some(prog.color))
    else if peopleMatch.Some? then
      PeopleIsPeople(pathname, PeopleRoutes[peopleMatch.value]);
      NavbarProps(Light, Some(PeopleLabel(PeopleRoutes[peopleMatch.value])), Some(LightBlue))
    else if StartsWith(pathname, "/people") then NavbarProps(Light, None, Some(LightBlue))
    else NavbarProps(DefaultVariant, None, None)
  }

  /** A people sub-page is a people page. */
  lemma PeopleIsPeople(path: string, route: string)
    requires StartsWith(path, "/people/" + route)
    ensures StartsWith(path, "/people")
  {
    assert path[..7] == ("/people/" + route)[..7];
  }

  /** A people sub-page that is not a program page shows its label. */
  lemma PeopleLabelShown(pathname: string)
    requires FirstMatch(ProgramSlugs(), "/programs/", pathname).None?
    requires FirstMatch(PeopleRoutes, "/people/", pathname).Some?
    ensures RootNavbar(pathname) == NavbarProps(Light,
      Some(PeopleLabel(PeopleRoutes[FirstMatch(PeopleRoutes, "/people/", pathname).value])), Some(LightBlue))
  {
  }

  /** A people page with no matching route gets the light bar without a
      suffix. */
  lemma PeoplePageUnlabelled(pathname: string)
    requires FirstMatch(PeopleRoutes, "/people/", pathname).None?
    requires StartsWith(pathname, "/people")
    ensures RootNavbar(pathname) == NavbarProps(Light, None, Some(LightBlue))
  {
    ProgramsNotPeople(pathname);
  }

  /** No path is both a program page and a people page, so the order of
      the two tests never decides anything. */
  lemma ProgramsNotPeople(pathname: string)
    requires StartsWith(pathname, "/people")
    ensures FirstMatch(ProgramSlugs(), "/programs/", pathname).None?
  {
    forall j | 0 <= j < |ProgramSlugs()|
      ensures !StartsWith(pathname, "/programs/" + ProgramSlugs()[j])
    {
      assert pathname[2] == "/people"[2] == 'e';
      assert ("/programs/" + ProgramSlugs()[j])[2] == 'r';
    }
  }

  /** Matching is by prefix, so a longer slug still selects its program. */
  lemma MentorshipPrefix()
    ensures RootNavbar("/programs/mentorship-x") == NavbarProps(Dark, Some("mentorship"), Some("#6966E3"))
  {
    var path := "/programs/mentorship-x";
    assert !StartsWith(path, "/programs/" + ProgramSlugs()[0]) by {
      assert path[10] == 'm';
    }
    assert StartsWith(path, "/programs/" + ProgramSlugs()[1]);
  }
}
