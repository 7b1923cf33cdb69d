# A Dafny model of the site's asset-path checker and page logic

This project models two things from the repository of a student
organisation's web site.

- **The asset case checker** (`scripts/check_asset_case.py`). This script
  finds every quoted `/…​.png`-style path in the site's source files. It
  checks each path against `public/` segment by segment with exact case,
  falling back to a case-folded match. It then reports paths that are
  missing and paths that exist only under another case, which work on a
  case-insensitive file system and break on Linux.
- **The pure logic of the site's pages and components**:
  - the past-teams page's filters and grouping, and its data table;
  - the applications countdown and its badge colours;
  - the chip and scroll-timeline colour helpers;
  - the program timeline's two columns;
  - the newsletter endpoint's validation;
  - the site URL fallback chain;
  - the navbar's choice of look;
  - the animated-text splitting;
  - the member handle;
  - the custom cursor's state and offset;
  - the hero statistics.

Files are modelled as a tree of `Node`s with named entries. The resolver's
case folding (Python `str.lower()`) is a parameter `fold`, and every
property about the resolver holds for any `fold`. The Supabase table behind
the newsletter is a parameter `store`. Clocks are a parameter `now`.
Real numbers stand in for JavaScript doubles.

Modules, one per source file or concern:
- **asset checker:** `AssetTree`, `AssetScan`, `AssetResolve`, `AssetReport`;
- **pages and components:** `PastTeams`, `TeamsData`, `Countdown`, `Color`, `Chip`,
  `Timeline`, `PhaseColumns`, `Newsletter`, `SiteUrl`, `Navbar`, `TextAnimate`,
  `MemberSlug`, `CursorFollow`, `HeroStat`;
- **shared helpers:** `Wrappers`, `Seqs`, `Text`.

## Behaviour worth knowing

- The extension alternation in `ASSET_RE` has no case-insensitive flag.
  `"/Logo.PNG"` is therefore never extracted (`AssetScan.UpperCaseLogoNotRecorded`).
- The opening and closing quotes are two independent `["']` classes. A
  literal may therefore open with `'` and close with `"` (`AssetScan.MixedQuotesRecorded`).
- `[^"']` admits a newline, so a matched literal may span lines.
- `url_path.lstrip("/")` removes every leading slash, not just one
  (`AssetResolve.LStripSlashes`). Later the path is compared with `/`
  prepended to the corrected segments. Such a path is therefore never an exact
  match, just like one with a doubled inner slash (`AssetResolve.DoubledSlashNeverExact`).

## Model

| member | source | states |
|---|---|---|
| AssetScan.ExtensionIsPlain | scripts/check_asset_case.py:12-27 | every listed extension is lower-case letters and digits, so no extension can contain a quote or a dot |
| AssetScan.NextQuote | scripts/check_asset_case.py:33-35 | finds the first quote character at or after a position, or reports that none is left |
| AssetScan.ScanFrom | scripts/check_asset_case.py:30-38 | every hit is a pair of quotes after the starting position, and hits come left to right without overlap |
| AssetScan.ScanFromPaths | scripts/check_asset_case.py:30-38 | every hit of the scan encloses an asset path: it starts with `/`, holds no quote and ends in a listed extension |
| AssetScan.ListedExtIff | scripts/check_asset_case.py:12-27 | the walk down the extension list finds a match exactly when the path ends in `.` and one of the fourteen listed extensions |
| AssetScan.ScanOpen | scripts/check_asset_case.py:30-38 | the scan from a candidate opening quote yields only well-formed, ordered hits at or after it |
| AssetScan.ScanIsFindIter | scripts/check_asset_case.py:30-38 | the quote-to-quote scanner yields exactly the matches of the regular expression's `finditer` |
| AssetScan.MatchClosesAtNextQuote | scripts/check_asset_case.py:33-35 | a match opened at a quote always closes at the very next quote |
| AssetScan.AssetPathIsMatch | scripts/check_asset_case.py:34 | two quotes around an asset path form a match of the pattern |
| AssetScan.MatchIsAssetPath | scripts/check_asset_case.py:34 | the text of a match between adjacent quotes is an asset path |
| AssetScan.UpperCaseExtensionNotRecorded | scripts/check_asset_case.py:30-38 | a path with an upper-case letter after its last dot is never extracted |
| AssetScan.UpperCaseLogoNotRecorded | scripts/check_asset_case.py:30-38 | `/Images/Logo.PNG` is not extracted |
| AssetScan.MixedQuotesRecorded | scripts/check_asset_case.py:33-35 | `'/logo.png"` is extracted, although its quotes differ |
| AssetScan.QuotedPathRecorded | scripts/check_asset_case.py:30-38 | a text that is one asset path between quotes of either kind yields exactly that one match |
| AssetScan.ScanAtQuote | scripts/check_asset_case.py:30-38 | at a quote, the scan records the literal up to the next quote when that is an asset path, and otherwise moves on one character |
| AssetScan.FindIterAtQuote | scripts/check_asset_case.py:68 | `finditer` takes the same step as the scanner at every quote |
| AssetScan.NoClosingQuote | scripts/check_asset_case.py:33-35 | a quote with no quote after it starts no match |
| AssetScan.RefsInText | scripts/check_asset_case.py:68-71 | one reference per match, in order, holding the text between the quotes and the match's line |
| AssetScan.Suffix | scripts/check_asset_case.py:56 | the suffix is empty or is the name's tail from its last dot, with at least one character after the dot and one before it; it is non-empty exactly when the name has a dot that is neither its first nor its last character and is followed by no other dot |
| AssetScan.CodeFilesExact | scripts/check_asset_case.py:48-58 | a file is scanned exactly when it exists below `app/` or `components/` and has one of the five code suffixes |
| AssetScan.BaseFilesExact | scripts/check_asset_case.py:51-57 | below one base directory, exactly its existing code files are listed; a missing base lists nothing |
| AssetScan.RefsCount | scripts/check_asset_case.py:61-72 | the number of references equals the total number of matches over the files |
| AssetScan.FindRefsFromFiles | scripts/check_asset_case.py:61-72 | a reference is found exactly when it is one of a scanned file's matches, and no match is lost |
| AssetTree.Child | scripts/check_asset_case.py:85-88 | the entry of a directory named exactly `name`, present exactly when the directory has one |
| AssetTree.FilesComplete | scripts/check_asset_case.py:55-56 | the recursive file listing holds exactly the files that exist in the tree |
| AssetResolve.LStripSlashes | scripts/check_asset_case.py:76 | removes the whole run of leading slashes and nothing else |
| AssetResolve.CutAt | scripts/check_asset_case.py:77 | keeps the prefix before the first occurrence of the character |
| AssetResolve.StripQuery | scripts/check_asset_case.py:77 | the result is the longest prefix of the path holding no `?` and no `#`: it is a prefix, and the character after it, if any, is `?` or `#` |
| AssetResolve.Segments | scripts/check_asset_case.py:78 | splitting on `/` and dropping empty pieces gives non-empty, slash-free segments |
| AssetResolve.SegmentsAtSlash | scripts/check_asset_case.py:78 | the segments of `a/b` are the segments of `a` followed by those of `b` |
| AssetResolve.SegmentsOfWord | scripts/check_asset_case.py:78 | a slash-free string is one segment, or none when empty; with `SegmentsAtSlash` this fixes the segments of every string |
| AssetResolve.SegmentsLStrip | scripts/check_asset_case.py:76-78 | leading slashes do not change the segments |
| AssetResolve.Normalise | scripts/check_asset_case.py:76-78 | the segments hold no slash, no query and no fragment, and are the segments of the path cut before its query or fragment, whatever leading slashes it has |
| AssetResolve.LStripCutCommute | scripts/check_asset_case.py:76-77 | stripping leading slashes and cutting at `?` or `#` may be done in either order |
| AssetResolve.ExactIndex | scripts/check_asset_case.py:85-86 | finds the first entry whose name equals the segment exactly, or reports none |
| AssetResolve.FoldIndex | scripts/check_asset_case.py:91-94 | finds the first entry whose folded name equals the folded segment, or reports none |
| AssetResolve.Pick | scripts/check_asset_case.py:86-98 | prefers the exact name; otherwise it takes the first entry whose folded name matches, no earlier entry folding the same; there is none only when no name folds to the segment |
| AssetResolve.Walk | scripts/check_asset_case.py:82-99 | a walk corrects every segment to a name that folds the same, and the corrected path leads to the node reached |
| AssetResolve.Rebuild | scripts/check_asset_case.py:102 | the corrected path starts with `/`; its content is stated by `AssetResolve.RebuildRoundTrip` and `AssetResolve.SegmentsOfJoin` |
| AssetResolve.SegmentsOfJoin | scripts/check_asset_case.py:78 | splitting `/`-joined plain names and dropping empty pieces gives back the names |
| AssetResolve.RebuildRoundTrip | scripts/check_asset_case.py:101-103 | a path rebuilt from plain names has no query or fragment to cut, and normalising it gives back the names |
| AssetResolve.Resolve | scripts/check_asset_case.py:75-104 | an exact match carries the stripped path as its correction; no correction exactly when the walk fails |
| AssetResolve.ResolveCorrection | scripts/check_asset_case.py:82-104 | a correction is `/` followed by existing names, one per segment, each equal to its segment up to case, leading to an existing entry |
| AssetResolve.ExactPathWalks | scripts/check_asset_case.py:86-89 | a path that exists with exact case walks to itself unchanged |
| AssetResolve.CorrectedIsExact | scripts/check_asset_case.py:101-104 | resolving a corrected path again gives an exact match on itself |
| AssetResolve.DoubledSlashNeverExact | scripts/check_asset_case.py:101-103 | a path with `//` in it is never an exact match |
| AssetResolve.JoinSingleSlashes | scripts/check_asset_case.py:102 | a rebuilt path never holds two slashes in a row |
| AssetResolve.ExactMatchIff | scripts/check_asset_case.py:75-104 | a reference is an exact match exactly when its segments exist with that case and the stripped path is already in rebuilt form |
| AssetResolve.WalkReachable | scripts/check_asset_case.py:82-99 | a successful walk means every segment matches some entry up to case |
| AssetResolve.ReachableWalks | scripts/check_asset_case.py:82-99 | when names in a directory differ after folding, a path reachable up to case is walked |
| AssetResolve.MissingIff | scripts/check_asset_case.py:75-104 | a reference is missing exactly when no path matches it up to case |
| AssetReport.Classify | scripts/check_asset_case.py:118-123 | each reference is listed once, as missing, as a mismatch with its correction, or not at all when exact, and the three counts add up |
| AssetReport.ClassifyComplete | scripts/check_asset_case.py:118-123 | every unresolved reference is listed as missing and every case-only match as a mismatch; missing keeps the input order |
| AssetReport.ClassifyMismatchOrder | scripts/check_asset_case.py:118-138 | the mismatches keep the input order, so the fifty printed are the first fifty found |
| AssetReport.CleanIff | scripts/check_asset_case.py:125-126 | both lists are empty exactly when every reference resolves exactly |
| AssetReport.Section | scripts/check_asset_case.py:128-140 | an empty list prints nothing; otherwise the listing starts with its header |
| AssetReport.SectionAccounts | scripts/check_asset_case.py:130-133 | at most fifty entries are printed, in order, and the `... and N more` line covers all the rest |
| AssetReport.MissingLines | scripts/check_asset_case.py:130-131 | one line per missing reference, in order |
| AssetReport.MismatchLines | scripts/check_asset_case.py:137-138 | one line per mismatch with its correction, in order |
| AssetReport.Run | scripts/check_asset_case.py:107-142 | exit 0 exactly when `public/` exists and every found reference resolves exactly, with nothing printed; a missing `public/` exits 1 with one diagnostic; with `public/` present, the output is the report of the classified references: the missing section, then the mismatch section |
| AssetReport.ReportCounts | scripts/check_asset_case.py:128-140 | every listed failure is printed as an entry or counted in a `... and N more` line, and at most fifty entries of each kind are printed |
| AssetReport.ReportOrder | scripts/check_asset_case.py:128-140 | the missing section opens the report with the first fifty missing references in order, and the mismatch section follows with the first fifty mismatches in order |
| AssetReport.RunAccounts | scripts/check_asset_case.py:118-140 | every reference found is printed as an entry, counted in a `... and N more` line, or resolves exactly |
| PastTeams.ToggleYear | app/people/past-teams/page.tsx:54-67 | toggles one year in the selection; emptying the set returns to "all years" |
| PastTeams.ToggleYearTwice | app/people/past-teams/page.tsx:54-67 | toggling the same year twice restores any valid selection |
| PastTeams.SemesterChip | app/people/past-teams/page.tsx:203-204 | clicking the active semester chip clears the filter, and clicking another selects that semester |
| PastTeams.ProgramChip | app/people/past-teams/page.tsx:215 | clicking the active program chip, or "all", selects all programs; otherwise the clicked program is selected |
| PastTeams.ClearFilters | app/people/past-teams/page.tsx:88-92 | clearing leaves no active filter |
| PastTeams.InactiveIsCleared | app/people/past-teams/page.tsx:94-95 | no filter is active exactly in the cleared state |
| PastTeams.AllowedTeams | app/people/past-teams/page.tsx:69 | the lookup is undefined exactly for the `eir` chip |
| PastTeams.KeepMembers | app/people/past-teams/page.tsx:79-82 | keeps, in order, only members whose team is allowed and every such member, and all of them when every team is allowed |
| PastTeams.KeepMembersCount | app/people/past-teams/page.tsx:79-82 | an allowed member is kept as many times as the roster lists it, any other never |
| PastTeams.Shown | app/people/past-teams/page.tsx:71-85 | every shown roster is a passing semester narrowed and non-empty, and every such semester is shown |
| PastTeams.ShownMembersAdmitted | app/people/past-teams/page.tsx:78-85 | every shown member belongs to an allowed team |
| PastTeams.ShownKeepsOrder | app/people/past-teams/page.tsx:71-85 | the shown semesters keep the table's order |
| PastTeams.ShownNewestFirst | app/people/past-teams/page.tsx:71-85 | a newest-first table gives a newest-first page |
| PastTeams.FilteredData | app/people/past-teams/page.tsx:71-86 | the page throws exactly when `eir` is chosen and some passing semester has members; otherwise it shows the filtered rosters, which for `eir` is none |
| PastTeams.EirChipThrows | app/people/past-teams/page.tsx:29-36 | choosing `eir` with no other filter throws on the real table |
| PastTeams.AllowedTeamsFixed | app/people/past-teams/page.tsx:69 | the corrected lookup allows no team for `eir` and agrees with the table elsewhere |
| PastTeams.FilteredDataFixed | app/people/past-teams/page.tsx:71-86 | the corrected page agrees with the original wherever it does not throw, and shows nothing for `eir` |
| PastTeams.YearsOf | app/people/past-teams/page.tsx:49-52 | the year chips are exactly the distinct years of the table, strictly newest first |
| PastTeams.InsertDesc | app/people/past-teams/page.tsx:50-51 | inserting a year keeps the list strictly decreasing and adds exactly that year |
| PastTeams.OfKey | app/people/past-teams/page.tsx:241 | a group holds only members of its team |
| PastTeams.OfKeyCount | app/people/past-teams/page.tsx:241 | a group holds every member of its team, as many times as the roster does |
| PastTeams.GroupsFor | app/people/past-teams/page.tsx:238-242 | one group per display key, in the display order |
| PastTeams.TeamGroups | app/people/past-teams/page.tsx:238-243 | the groups shown are non-empty, keyed by display-order teams, and hold only their team's members |
| PastTeams.GroupsOf | app/people/past-teams/page.tsx:238-243 | the same for any key list |
| PastTeams.FlattenDropsEmpty | app/people/past-teams/page.tsx:243 | dropping empty groups loses no member |
| PastTeams.DisplayOrderCoversTeams | app/people/past-teams/page.tsx:19-27 | every team appears exactly once in the display order |
| PastTeams.GroupsPartition | app/people/past-teams/page.tsx:238-243 | the groups together hold exactly the semester's roster, as a multiset |
| PastTeams.GroupsInDisplayOrder | app/people/past-teams/page.tsx:238-243 | groups appear in display order |
| PastTeams.GroupsOfInKeyOrder | app/people/past-teams/page.tsx:238-243 | the non-empty groups keep the order of their keys |
| TeamsData.ProgramFilterTeams | app/people/past-teams/teams-data.ts:37-43 | "all" allows every team, and any other filter a non-empty list |
| TeamsData.EachTeamInOneFilter | app/people/past-teams/teams-data.ts:37-43 | each team is covered by exactly one program filter; mentorship covers the intro and advanced cohorts |
| TeamsData.TeamConfig | app/people/past-teams/teams-data.ts:28-34 | every team has a six-digit hex colour and a non-empty label |
| TeamsData.ProgramFilterLabel | app/people/past-teams/teams-data.ts:45-51 | every filter has a non-empty label |
| TeamsData.LabelsDistinct | app/people/past-teams/teams-data.ts:28-51 | no two teams share a label, and no two filters do |
| TeamsData.TeamsDataOrdered | app/people/past-teams/teams-data.ts:53-215 | the table is strictly newest first, so no semester appears twice |
| TeamsData.SameNameTwiceInSemester | app/people/past-teams/teams-data.ts:110-147 | in spring 2025 one name appears under two teams (lines 118 and 145), so names do not identify members |
| Countdown.CalculateTimeLeft | app/components/ApplicationsCountdown.tsx:41-51 | all zero once the deadline has passed; otherwise hours, minutes and seconds are within their clock ranges |
| Countdown.JsRem | app/components/ApplicationsCountdown.tsx:47-49 | JavaScript `%` on numbers takes the sign of the dividend, stays below the modulus in size, and differs from the dividend by a whole multiple of the modulus |
| Countdown.TimeLeftInteger | app/components/ApplicationsCountdown.tsx:44-50 | the floored real-number arithmetic equals integer division and remainder on the milliseconds |
| Countdown.TimeLeftAddsUp | app/components/ApplicationsCountdown.tsx:44-50 | days, hours, minutes and seconds add back up to the whole seconds left |
| Countdown.FinishedIff | app/components/ApplicationsCountdown.tsx:103-118 | the countdown shows as over exactly when less than a second is left |
| Countdown.TargetDate | app/components/ApplicationsCountdown.tsx:25-36 | the target is the first February 8 not before now: this year's or next year's |
| Countdown.NextIndex | app/components/ApplicationsCountdown.tsx:96 | the rotation alternates between the two messages |
| Countdown.RotationPeriod | app/components/ApplicationsCountdown.tsx:90-100 | after k rotations the k-parity message shows, after 15 seconds per full cycle plus 5 seconds for an odd step |
| Color.ParseInt16OfHex | app/components/ApplicationsCountdown.tsx:9-11 | `parseInt(s, 16)` of a hex-digit string is its value |
| Color.ParseInt16Negative | app/components/ApplicationsCountdown.tsx:9-11 | a leading minus negates |
| Color.ParseInt16Prefixed | app/components/ApplicationsCountdown.tsx:9-11 | a `0x` prefix is skipped |
| Color.ParseInt16NoDigits | app/components/ApplicationsCountdown.tsx:9-11 | blank input, a lone sign or prefix, or `NaN` parse to `NaN` |
| Color.PairParses | app/components/Chip.tsx:15-17 | two hex digits parse to 16 times the first plus the second |
| Color.HexToRgba | app/components/Chip.tsx:14-19 | the channels of a `#rrggbb` colour are its three digit pairs and the alpha passes through; too short an input gives `NaN` channels |
| Color.HexToRgbaOfFormat | app/components/ApplicationsCountdown.tsx:8-13 | reading back a formatted colour gives its channels |
| Color.PadStart2 | components/ui/timeline.tsx:48 | pads with leading zeros to two characters and keeps longer strings |
| Color.ChannelHex | components/ui/timeline.tsx:48 | a byte is written as two lower-case hex digits |
| Color.FormatRgbShape | components/ui/timeline.tsx:48 | a formatted colour is `#` and six lower-case hex digits |
| Color.ChannelHexParses | components/ui/timeline.tsx:48 | parsing a written channel gives back the byte |
| Color.ParseRgb | components/ui/timeline.tsx:28-39 | a six-digit colour parses to the same channels as `hexToRgba` reads |
| Color.ShorthandDoubles | components/ui/timeline.tsx:30-32 | `#abc` is read as `#aabbcc`, so each channel is 17 times its digit |
| Color.ShorthandExpands | components/ui/timeline.tsx:30-32 | each shorthand digit is doubled before parsing, whatever the characters |
| Color.Clamp01 | components/ui/timeline.tsx:24-26 | the result lies in [0, 1], equals the input inside it and the nearer end outside it |
| Color.JsRound | components/ui/timeline.tsx:45-47 | rounds to the nearest integer with halves upwards |
| Color.Mix | components/ui/timeline.tsx:45-47 | a mixed channel is `NaN` exactly when either input is |
| Color.InterpolateColor | components/ui/timeline.tsx:41-49 | blending two valid colours gives a valid lower-case hex colour |
| Color.MixBetween | components/ui/timeline.tsx:44-47 | a mixed channel lies between its ends and equals them at ratios 0 and 1 |
| Color.LerpWithin | components/ui/timeline.tsx:45-47 | the unrounded blend `c1 + (c2 - c1) * t` lies between `c1` and `c2` for `t` in [0, 1] and equals them at 0 and 1 |
| Color.InterpolateEnds | components/ui/timeline.tsx:41-49 | a ratio at or beyond an end gives that end's colour |
| Color.InterpolateBetween | components/ui/timeline.tsx:41-49 | every blended channel lies between the two colours' channels |
| Color.FormatParsedHex | components/ui/timeline.tsx:41-49 | parsing and formatting a six-digit colour gives it back in lower case |
| Chip.GetTextColor | app/components/Chip.tsx:33-38 | a missing or empty value, `gray` and `grey` give the dimmed grey; anything else is used as given |
| Chip.GetTextColorIdempotent | app/components/Chip.tsx:33-38 | choosing the text colour twice chooses the same one |
| Chip.ChipColors | app/components/Chip.tsx:21-40 | a filled chip uses its colour, a grey border and the chosen text colour; any other chip uses its colour at 0.2 and 0.4 opacity and as text |
| Chip.FilledBorderGrey | app/components/Chip.tsx:30 | the filled border is `rgba(63, 63, 63, 0.6)` |
| Chip.OutlineTint | app/components/Chip.tsx:29-30 | an outline chip's border has the background's channels at twice the opacity, and `textColor` is ignored |
| Chip.DefaultChip | app/components/Chip.tsx:23-30 | with no props the chip is a teal outline |
| Timeline.ItemBounds | components/ui/timeline.tsx:68-72 | the fade bounds lie in [0, 1] and are ordered lead-in, active, lead-out |
| Timeline.OrOne | components/ui/timeline.tsx:77 | a zero divisor is replaced by 1 |
| Timeline.TitleShade | components/ui/timeline.tsx:74-86 | dim outside the lead-in and lead-out window, full in the active range, fading in or out between, with a fade ratio strictly inside (0, 1) |
| Timeline.ShadeColor | components/ui/timeline.tsx:74-86 | dim shows the grey and full shows the title's colour |
| Timeline.TitleColorZones | components/ui/timeline.tsx:74-86 | the title is grey outside its window and in its colour inside its active range |
| Timeline.DimTextChannels | components/ui/timeline.tsx:22 | the dim text colour has 219 in every channel |
| Timeline.TitleColorBetween | components/ui/timeline.tsx:74-86 | every title colour lies between the grey and the title's colour, channel by channel |
| Timeline.BlendFromDim | components/ui/timeline.tsx:77 | fading in stays between grey and the colour |
| Timeline.BlendToDim | components/ui/timeline.tsx:83 | fading out stays between the colour and grey |
| Timeline.RowOpacity | components/ui/timeline.tsx:88-92 | the opacity lies in [0, 1] and is 0 outside the window |
| Timeline.RowOpacityFull | components/ui/timeline.tsx:88-92 | the opacity is 1 in the active range |
| Timeline.Divisor | components/ui/timeline.tsx:259 | the step divisor is n - 1 and never 0 |
| Timeline.FallbackStops | components/ui/timeline.tsx:258-261 | one evenly spaced stop per item |
| Timeline.FallbackStopsShape | components/ui/timeline.tsx:258-261 | the stops lie in [0, 1], increase, and run from 0 to 1 |
| Timeline.MeasuredPositions | components/ui/timeline.tsx:201-214 | one position per measured title, in [0, 1], with the even stop where a title is unmeasured or the height is 0 |
| Timeline.SettlePositions | components/ui/timeline.tsx:216-225 | keeps the old positions only when every one is within 0.001 of the new one |
| Timeline.Stops | components/ui/timeline.tsx:263 | uses the measured positions when there is one per item, otherwise the even stops |
| Timeline.Span | components/ui/timeline.tsx:291-292 | an item's span runs from its stop to the next, with 0 and 1 at the ends |
| Timeline.FallbackSpansTile | components/ui/timeline.tsx:291-292 | the even spans are ordered, lie in [0, 1], start at 0, end at 1 and meet without gaps |
| PhaseColumns.Column | app/components/Timeline.tsx:37-38 | a column is no longer than the phase list |
| PhaseColumns.ColumnContents | app/components/Timeline.tsx:37-38 | a column holds exactly the phases at positions of its parity, in order: the left ceil(n/2) of them, the right floor(n/2) |
| PhaseColumns.EachPhaseOnce | app/components/Timeline.tsx:37-38 | each phase appears in exactly one column, at half its position |
| PhaseColumns.InterleaveColumns | app/components/Timeline.tsx:37-38 | reading the columns alternately gives back the phases |
| Newsletter.ValidEmailIff | app/api/newsletter/subscribe/route.ts:5 | the character scan accepts exactly what the e-mail regular expression matches |
| Newsletter.CheckEmail | app/api/newsletter/subscribe/route.ts:13-29 | a missing, empty or non-string e-mail is "required", a malformed one is "invalid format", and otherwise the trimmed lower-cased address is accepted |
| Newsletter.Post | app/api/newsletter/subscribe/route.ts:7-67 | the endpoint answers 200, 400 or 500; it writes to the store exactly for an accepted address, and an unreadable body gives 500 |
| Newsletter.Respond | app/api/newsletter/subscribe/route.ts:36-60 | an accepted address is stored with its source when the source is truthy; the answer is 200 exactly when the store succeeds |
| Newsletter.PostSeesNormalized | app/api/newsletter/subscribe/route.ts:21-29 | two addresses that normalise alike get the same response |
| Newsletter.SameVerdict | app/api/newsletter/subscribe/route.ts:21-24 | two addresses that normalise alike get the same verdict |
| Newsletter.VerdictOfString | app/api/newsletter/subscribe/route.ts:21-24 | a non-empty string is accepted in normalised form when valid, and rejected as malformed otherwise |
| Newsletter.NormalizeIdempotent | app/api/newsletter/subscribe/route.ts:21 | normalising twice is normalising once |
| Newsletter.PaddingIgnored | app/api/newsletter/subscribe/route.ts:21 | surrounding whitespace does not change the normalised address |
| Newsletter.CaseIgnored | app/api/newsletter/subscribe/route.ts:21 | upper-case letters do not change the normalised address |
| SiteUrl.Coalesce | lib/site-url.ts:2-5 | `??` takes the first defined value |
| SiteUrl.WithProtocol | lib/site-url.ts:8-10 | a URL starting with `http` is kept; any other gets `https://` prepended |
| SiteUrl.GetSiteUrl | lib/site-url.ts:1-18 | a non-empty `NEXT_PUBLIC_SITE_URL`, else (when unset) a non-empty `SITE_URL`, else (when both are unset) a non-empty `NEXT_PUBLIC_VERCEL_URL` is used with a protocol added; without a usable explicit value, `https://` plus a non-empty `VERCEL_URL`, else localhost; the result always starts with `http` |
| SiteUrl.EmptyFirstSkipsOthers | lib/site-url.ts:2-15 | an empty first variable hides the second one and the public Vercel variable |
| SiteUrl.GetSiteUrlFixpoint | lib/site-url.ts:7-11 | feeding the result back in as the site URL gives it again |
| SiteUrl.HttpbinUnprefixed | lib/site-url.ts:8-11 | a host that merely starts with `http` gets no protocol, so the string handed to `new URL` has no scheme and the call throws |
| Navbar.FirstMatch | app/components/RootNavbar.tsx:23-24 | finds the first slug whose path prefix matches, or reports none |
| Navbar.RootNavbar | app/components/RootNavbar.tsx:20-45 | the dark bar with the program's name and colour on program pages, the light bar on people pages, and the default bar elsewhere |
| Navbar.PeopleLabelShown | app/components/RootNavbar.tsx:36-38 | a people sub-page shows its label |
| Navbar.PeoplePageUnlabelled | app/components/RootNavbar.tsx:40-42 | any other people page shows the light bar without a label |
| Navbar.ProgramsNotPeople | app/components/RootNavbar.tsx:23-26 | no page is both a program page and a people page |
| Navbar.MentorshipPrefix | app/components/RootNavbar.tsx:24 | matching is by prefix, so `/programs/mentorship-x` selects mentorship |
| TextAnimate.ByOrDefault | components/ui/text-animate.tsx:100 | an absent `by` means word |
| TextAnimate.SplitText | components/ui/text-animate.tsx:137-153 | a non-string child or text mode gives one piece; every mode but character mode gives at least one |
| TextAnimate.StaggerTiming | components/ui/text-animate.tsx:73-78 | a stagger is defined exactly for the four modes |
| TextAnimate.SuffixAt | components/ui/text-animate.tsx:175-176 | word mode puts a non-breaking space and line mode a line break after every string piece but the last |
| TextAnimate.Spans | components/ui/text-animate.tsx:167-178 | one span per piece, with its separator |
| TextAnimate.RenderedText | components/ui/text-animate.tsx:137-176 | word mode shows the text with non-breaking spaces; line, character and text mode show it unchanged |
| TextAnimate.UnknownModeDropsSpaces | components/ui/text-animate.tsx:150-151 | an unknown `by` splits like word mode, shows the words run together, and has no stagger |
| TextAnimate.SplitPieces | components/ui/text-animate.tsx:144-149 | character mode gives one piece per character; word and line pieces hold no separator and join back to the text |
| MemberSlug.Hyphenate | app/components/TeamMemberCard.tsx:21 | the result holds no whitespace and stays lower case |
| MemberSlug.Handle | app/components/TeamMemberCard.tsx:21 | the handle is `/` followed by a lower-case name without whitespace |
| MemberSlug.SpaceRun | app/components/TeamMemberCard.tsx:21 | a run of whitespace becomes one hyphen |
| MemberSlug.KeepsNonSpace | app/components/TeamMemberCard.tsx:21 | other characters are kept |
| MemberSlug.HyphenateKeeps | app/components/TeamMemberCard.tsx:21 | hyphenating keeps every non-space, non-hyphen character in order |
| MemberSlug.HandleKeepsName | app/components/TeamMemberCard.tsx:21 | the handle keeps the lower-cased name's non-space, non-hyphen characters in order |
| CursorFollow.Step | components/animate-ui/primitives/animate/cursor.tsx:61-131 | a move shows the cursor, a deactivating event hides it, and other events change nothing |
| CursorFollow.RunActive | components/animate-ui/primitives/animate/cursor.tsx:61-131 | after any run of events the cursor shows exactly when the last deciding event was a move |
| CursorFollow.GlobalOutKeepsActive | components/animate-ui/primitives/animate/cursor.tsx:71-76 | in global mode a `mouseout`, or a `pointerout` into another element, leaves the state unchanged |
| CursorFollow.AlignShift | components/animate-ui/primitives/animate/cursor.tsx:276-286 | start alignment shifts by the extent plus the offset, center by half the extent, end by minus the offset |
| CursorFollow.CalculateOffset | components/animate-ui/primitives/animate/cursor.tsx:265-336 | the main-axis offset for each side and the cross-axis alignment shift, with defaults bottom, end and zero offsets, and a 0 by 0 rectangle when unmounted |
| CursorFollow.FollowTarget | components/animate-ui/primitives/animate/cursor.tsx:339-346 | the target is the cursor position minus the offset plus half the cursor's size, and an unmounted cursor counts as 20 by 20 |
| CursorFollow.OffsetTransposes | components/animate-ui/primitives/animate/cursor.tsx:273-333 | turning the side a quarter and transposing the rectangle transposes the offset |
| CursorFollow.DefaultOffset | components/animate-ui/primitives/animate/cursor.tsx:244-247 | the default side and alignment give (-alignOffset, -sideOffset) whatever the size |
| CursorFollow.CenteredFollower | components/animate-ui/primitives/animate/cursor.tsx:265-346 | a centred follower is centred on the cursor across its side |
| HeroStat.Digits | app/components/HomeHeroSection.tsx:45 | only digits remain |
| HeroStat.Suffix | app/components/HomeHeroSection.tsx:46 | no digit remains |
| HeroStat.NumericValue | app/components/HomeHeroSection.tsx:45 | the value is `NaN` exactly when the stat has no digit |
| HeroStat.DigitsAndSuffix | app/components/HomeHeroSection.tsx:45-46 | the digits and the suffix keep their order and account for every character |
| HeroStat.StatRoundTrip | app/components/HomeHeroSection.tsx:45-46 | a number followed by a digit-free suffix splits back into that number and that suffix |
| Text.Lower | app/api/newsletter/subscribe/route.ts:21 | lowers each character in place |
| Text.LowerIdempotent | app/api/newsletter/subscribe/route.ts:21 | lowering twice is lowering once |
| Text.TrimStart | app/api/newsletter/subscribe/route.ts:21 | removes exactly the leading whitespace |
| Text.TrimEnd | app/api/newsletter/subscribe/route.ts:21 | removes exactly the trailing whitespace |
| Seqs.Split | components/ui/text-animate.tsx:145 | `split` gives at least one piece, and no piece holds the separator |
| Seqs.JoinSplit | components/ui/text-animate.tsx:145 | joining the pieces with the separator gives back the string |
| Seqs.SplitJoin | components/ui/text-animate.tsx:145 | splitting a join of separator-free pieces gives back the pieces |
| Seqs.SplitChars | components/ui/text-animate.tsx:147 | one single-character piece per character, concatenating back to the string |

## Left out

- Reading files is left out: the file contents are part of the tree. This covers `rglob`, the UTF-8 decoding and its `errors="ignore"` fallback, and symbolic links.
- Segments: its own contract states only the shape of the segments. Their contents are stated by `AssetResolve.SegmentsAtSlash` and `AssetResolve.SegmentsOfWord`, which between them fix the segments of every string, and for a whole URL by `AssetResolve.Normalise`.
- AssetTree.Files: the files are listed in the model's own depth-first order, a subdirectory's files at the subdirectory's place. `rglob` lists a directory's own entries first, and its order also depends on the Python version and on the directory listing order. Only the set of scanned files is stated. The order of the references and the choice of the 50 lines printed per section may therefore differ.
- Seqs.SplitChars and TextAnimate.SplitPieces: strings are sequences of Unicode scalar values, while JavaScript's `split("")` and `.length` count UTF-16 code units. A character outside the Basic Multilingual Plane, such as an emoji, is one piece here but two in the page.
- Python's regular-expression engine is replaced by an explicit definition of the pattern's matches (`RegexMatch`, `FindIter`) and a scanner proved equal to it.
- `str.lower()` is a parameter, not Unicode case mapping.
- AssetResolve.Resolve: the final `cur.exists()` test is always true in a tree built from the entries seen on the way; broken links and races with the file system are not modelled.
- AssetReport.Run: the exact report wording, file paths and stream choice are left out. The lines are kinds of line (header, entry, `... and N more`) with their references, and the exit status is modelled.
- Text.Lower: JavaScript `toLowerCase()` is modelled for ASCII letters only, because full Unicode case mapping is beyond this model.
- MemberSlug.Handle: inherits the ASCII-only lowering of `Text.Lower`.
- JavaScript floating point is left out. Arithmetic is exact over the reals, so rounding error and `NaN` propagation through arithmetic are not modelled; a `NaN` colour channel is `None`.
- `parseInt` is exact for any number of digits; precision loss above 2^53 is not modelled.
- Timers, intervals, animation frames, React state scheduling, the DOM and rendering are left out. Element sizes, scroll progress, events and the current time are parameters.
- Countdown.TargetDate: the local time zone and daylight-saving changes are left out; instants are whole calendar fields.
- `rgba(...)` string formatting is left out; `Rgba` values stand for the strings.
- SiteUrl.GetSiteUrl: the result is the string handed to `new URL`; the parse is not modelled. That covers its normalisation and its error path: `new URL` throws a `TypeError` for any string that is not an absolute URL, such as `httpbin.org` (`SiteUrl.HttpbinUnprefixed`), and `getSiteUrl` then throws instead of returning.
- Newsletter.Post: the Supabase client is the parameter `store`; its network behaviour and error texts are left out.
- CursorFollow.Step: in local mode the parent's rectangle is read at each event in the source; here it is part of the event.
- `Countdown.Duration` and `Countdown.IndexAfter` are helpers whose behaviour is stated through `Countdown.RotationPeriod`.

## Findings

| source | as written | input that shows it | evidently intended | confidence | as-written member | corrected member |
|---|---|---|---|---|---|---|
| app/people/past-teams/page.tsx:31, 69, 82 | the filter bar offers an `eir` chip, but `programFilterTeams` has no `eir` key, so `allowedTeams` is `undefined` and `(allowedTeams as Team[]).includes` throws as soon as any passing semester has members | click the `eir` chip with no year or semester filter | the chip shows no rosters | medium, not executed; a strict type check of `'eir'` against `ProgramFilter` would also reject line 31 | PastTeams.EirChipThrows | PastTeams.FilteredDataFixed |
