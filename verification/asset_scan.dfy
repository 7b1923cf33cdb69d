/** The reference extractor of `scripts/check_asset_case.py`: which source
    files are scanned, and which quoted literals in them are recorded as
    asset references.

    The pattern `["'](/[^"']+?\.(?:ext|...))["']` is characterised without a
    regular-expression engine: its body cannot contain a quote and must be
    followed by one, so a candidate opened at a quote can only close at the
    next quote. `RegexMatch` states the pattern itself and `FindIter` the
    left-to-right, non-overlapping search of `finditer`; `ScanFrom` is the
    quote-to-next-quote scanner, proved equal to them. */
module AssetScan {
  import opened Wrappers
  import opened Seqs
  import opened Text
  import opened AssetTree

  /** The recognised asset extensions, matched case-sensitively. */
  const Extensions: seq<string> := [
    "png", "jpg", "jpeg", "svg", "webp", "gif", "mp4",
    "glb", "gltf", "otf", "ttf", "woff", "woff2", "eot"
  ]

  /** Source and style file suffixes that are scanned. */
  const CodeSuffixes: set<string> := {".ts", ".tsx", ".js", ".jsx", ".css"}

  /** Top-level directories scanned, in this order. */
  const ScanBases: seq<string> := ["app", "components"]

  predicate IsQuote(c: char) { c == '"' || c == '\'' }

  predicate NoQuote(s: string) {
    forall k :: 0 <= k < |s| ==> !IsQuote(s[k])
  }

  /** `p` ends in `.ext` with at least one character between the leading
      `/` and that dot. */
  predicate EndsWithExt(p: string, ext: string) {
    |p| >= |ext| + 3 && p[|p| - |ext| - 1..] == "." + ext
  }

  /** The text between two quotes is recorded iff it starts with `/`,
      holds no quote, and ends in `.ext` for a listed extension with at
      least one character before that dot. */
  predicate IsAssetPath(p: string) {
    && |p| >= 1
    && p[0] == '/'
    && NoQuote(p)
    && EndsWithListedExt(p, 0)
  }

  /** `p` ends in `.ext` for one of the listed extensions from index `k`
      on, tried in order. */
  predicate EndsWithListedExt(p: string, k: nat)
    decreases |Extensions| - k
  {
    k < |Extensions| && (EndsWithExt(p, Extensions[k]) || EndsWithListedExt(p, k + 1))
  }

  /** Trying the extensions in order finds one exactly when one fits. */
  lemma {:induction false} ListedExtIff(p: string, k: nat)
    ensures EndsWithListedExt(p, k) <==> exists q :: k <= q < |Extensions| && EndsWithExt(p, Extensions[q])
    decreases |Extensions| - k
  {
    if k < |Extensions| {
      ListedExtIff(p, k + 1);
    }
  }

  /** The pattern matched at `text[start..end]`: an opening quote, `/`, a
      non-empty run of non-quote characters, `.`, a listed extension, and a
      closing quote of either kind. */
  ghost predicate RegexMatch(text: string, start: int, end: int) {
    && 0 <= start && start + 2 <= end <= |text|
    && IsQuote(text[start])
    && IsQuote(text[end - 1])
    && text[start + 1] == '/'
    && exists k, dot :: 0 <= k < |Extensions| && TailMatch(text, start, end, dot, Extensions[k])
  }

  /** The part of the pattern after `/`: a non-empty run of non-quote
      characters up to the `.` at `dot`, then `ext`, ending just before
      the closing quote at `end - 1`. */
  predicate TailMatch(text: string, start: int, end: int, dot: int, ext: string) {
    && 0 <= start && start + 2 < dot
    && dot + 1 + |ext| == end - 1 && end <= |text|
    && (forall q :: start + 2 <= q < dot ==> !IsQuote(text[q]))
    && text[dot] == '.'
    && text[dot + 1..end - 1] == ext
  }

  /** An extension made of lower-case letters and digits only. */
  predicate PlainExtension(ext: string) {
    forall q :: 0 <= q < |ext| ==> 'a' <= ext[q] <= 'z' || '0' <= ext[q] <= '9'
  }

  /** One match: the offsets of its opening and closing quotes. */
  datatype Hit = Hit(open: nat, close: nat)

  /** `finditer` from position `pos`: the leftmost match starting at or
      after `pos`, then the search resumes just after that match. */
  ghost function FindIter(text: string, pos: nat): seq<Hit>
    decreases |text| - pos
  {
    if pos >= |text| then []
    else if exists e :: RegexMatch(text, pos, e) then
      var e :| RegexMatch(text, pos, e);
      [Hit(pos, e - 1)] + FindIter(text, e)
    else FindIter(text, pos + 1)
  }

  /** The first quote at or after `from`. */
  function NextQuote(text: string, from: nat): (r: Option<nat>)
    ensures r.Some? ==> from <= r.value < |text| && IsQuote(text[r.value])
    ensures r.Some? ==> forall q :: from <= q < r.value ==> !IsQuote(text[q])
    ensures r.None? ==> forall q :: from <= q < |text| ==> !IsQuote(text[q])
    decreases |text| - from
  {
    if from >= |text| then None
    else if IsQuote(text[from]) then Some(from)
    else NextQuote(text, from + 1)
  }

  predicate Ordered(hits: seq<Hit>) {
    forall a, b :: 0 <= a < b < |hits| ==> hits[a].close < hits[b].open
  }

  /** The quote-to-next-quote scanner: every hit is a pair of quotes after
      `from`, and hits come left to right without overlapping. That each
      encloses an asset path is `ScanFromPaths`. */
  function ScanFrom(text: string, from: nat): (hits: seq<Hit>)
    ensures forall h :: h in hits ==>
      && from <= h.open < h.close < |text|
      && IsQuote(text[h.open]) && IsQuote(text[h.close])
    ensures Ordered(hits)
    decreases |text| - from, 1
  {
    match NextQuote(text, from)
    case None => []
    case Some(i) => ScanOpen(text, i)
  }

  /** The scan from a candidate opening quote at `i`. The candidate closes
      at the next quote; when the two do not enclose an asset path, that
      next quote is the new candidate. */
  function ScanOpen(text: string, i: nat): (hits: seq<Hit>)
    requires i < |text| && IsQuote(text[i])
    ensures forall h :: h in hits ==>
      && i <= h.open < h.close < |text|
      && IsQuote(text[h.open]) && IsQuote(text[h.close])
    ensures Ordered(hits)
    decreases |text| - i, 0
  {
    match NextQuote(text, i + 1)
    case None => []
    case Some(j) =>
      if IsAssetPath(text[i + 1..j]) then
        var rest := ScanFrom(text, j + 1);
        OrderedCons(Hit(i, j), rest);
        [Hit(i, j)] + rest
      else ScanOpen(text, j)
  }

  /** Each of `hits` is a pair of positions in `text` enclosing an asset path. */
  predicate AllPaths(text: string, hits: seq<Hit>) {
    forall h :: h in hits ==> h.open < h.close <= |text| && IsAssetPath(text[h.open + 1..h.close])
  }

  /** Every hit of the scan encloses an asset path. */
  lemma {:induction false} ScanFromPaths(text: string, from: nat)
    ensures AllPaths(text, ScanFrom(text, from))
    decreases |text| - from, 1
  {
    match NextQuote(text, from)
    case None =>
    case Some(i) =>
      ScanFromAt(text, from, i);
      ScanOpenPaths(text, i);
  }

  lemma {:induction false} ScanOpenPaths(text: string, i: nat)
    requires i < |text| && IsQuote(text[i])
    ensures AllPaths(text, ScanOpen(text, i))
    decreases |text| - i, 0
  {
    match NextQuote(text, i + 1)
    case None =>
    case Some(j) =>
      if IsAssetPath(text[i + 1..j]) {
        ScanOpenHit(text, i, j);
        ScanFromPaths(text, j + 1);
        AllPathsCons(text, Hit(i, j), ScanFrom(text, j + 1));
      } else {
        ScanOpenSkip(text, i, j);
        ScanOpenPaths(text, j);
      }
  }

  lemma AllPathsCons(text: string, h: Hit, rest: seq<Hit>)
    requires h.open < h.close <= |text| && IsAssetPath(text[h.open + 1..h.close])
    requires AllPaths(text, rest)
    ensures AllPaths(text, [h] + rest)
  {
    forall x | x in [h] + rest ensures x.open < x.close <= |text| && IsAssetPath(text[x.open + 1..x.close]) {
      if x != h {
        assert x in rest;
      }
    }
  }

  lemma OrderedCons(h: Hit, rest: seq<Hit>)
    requires Ordered(rest)
    requires forall x :: x in rest ==> h.close < x.open
    ensures Ordered([h] + rest)
  {
    forall a, b | 0 <= a < b < |[h] + rest| ensures ([h] + rest)[a].close < ([h] + rest)[b].open {
      assert ([h] + rest)[b] == rest[b - 1];
      if a > 0 {
        assert ([h] + rest)[a] == rest[a - 1];
      }
    }
  }

  /** Every listed extension is made of lower-case letters and digits. */
  lemma ExtensionIsPlain(k: int)
    requires 0 <= k < |Extensions|
    ensures PlainExtension(Extensions[k])
  {
  }

  /** Extensions are matched with their case: a path with a capital letter
      after its last dot is never recorded. */
  lemma UpperCaseExtensionNotRecorded(p: string, q: nat)
    requires LastDot(p, |p|) < q < |p| && IsAsciiUpper(p[q])
    ensures !IsAssetPath(p)
  {
    forall k | 0 <= k < |Extensions| ensures !EndsWithExt(p, Extensions[k]) {
      ExtensionIsPlain(k);
      if EndsWithExt(p, Extensions[k]) {
        LowerCaseExtensionTail(p, Extensions[k], q);
      }
    }
    ListedExtIff(p, 0);
  }

  /** Past the dot of a plain extension there are no capitals. */
  lemma LowerCaseExtensionTail(p: string, ext: string, q: nat)
    requires EndsWithExt(p, ext) && PlainExtension(ext)
    requires LastDot(p, |p|) < q < |p|
    ensures !IsAsciiUpper(p[q])
  {
    var d := |p| - |ext| - 1;
    assert p[d] == ("." + ext)[0];
    assert p[q] == ("." + ext)[q - d] == ext[q - d - 1];
  }

  /** `src="/Images/Logo.PNG"` yields no reference at all. */
  lemma UpperCaseLogoNotRecorded()
    ensures !IsAssetPath("/Images/Logo.PNG")
  {
    var p := "/Images/Logo.PNG";
    assert p[13] == 'P' && p[14] == 'N' && p[15] == 'G';
    UpperCaseExtensionNotRecorded(p, 13);
  }

  /** A literal may open with one kind of quote and close with the other. */
  lemma MixedQuotesRecorded()
    ensures ScanFrom("'/logo.png\"", 0) == [Hit(0, 10)]
  {
    var p := "/logo.png";
    assert "'/logo.png\"" == ['\''] + p + ['"'];
    assert p[|p| - 4..] == ".png";
    assert EndsWithExt(p, Extensions[0]);
    assert EndsWithListedExt(p, 0);
    QuotedPathRecorded('\'', p, '"');
  }

  /** A text that is one quoted asset path, with either quote at either
      end, yields exactly that hit. */
  lemma QuotedPathRecorded(open: char, p: string, close: char)
    requires IsQuote(open) && IsQuote(close) && IsAssetPath(p)
    ensures ScanFrom([open] + p + [close], 0) == [Hit(0, |p| + 1)]
  {
    var t := [open] + p + [close];
    var j := |p| + 1;
    forall q | 1 <= q < j ensures !IsQuote(t[q]) {
      assert t[q] == p[q - 1];
    }
    NextQuoteAt(t, 1, j);
    assert t[1..j] == p;
    ScanAtQuote(t, 0, j);
  }

  /** The next quote from `from` is the first quote at or after it. */
  lemma {:induction false} NextQuoteAt(text: string, from: nat, j: nat)
    requires from <= j < |text| && IsQuote(text[j])
    requires forall q :: from <= q < j ==> !IsQuote(text[q])
    ensures NextQuote(text, from) == Some(j)
    decreases j - from
  {
    if from < j {
      NextQuoteAt(text, from + 1, j);
    }
  }

  /** A match opened at `i` closes at the first quote after `i`. */
  lemma MatchClosesAtNextQuote(text: string, i: nat, j: nat, e: int)
    requires i < j < |text| && IsQuote(text[j])
    requires forall q :: i < q < j ==> !IsQuote(text[q])
    requires RegexMatch(text, i, e)
    ensures e == j + 1
  {
    var k, dot :| 0 <= k < |Extensions| && TailMatch(text, i, e, dot, Extensions[k]);
    ExtensionIsPlain(k);
    TailClosesAtNextQuote(text, i, j, e, dot, Extensions[k]);
  }

  lemma TailClosesAtNextQuote(text: string, i: nat, j: nat, e: int, dot: int, ext: string)
    requires i < j < |text| && IsQuote(text[j])
    requires forall q :: i < q < j ==> !IsQuote(text[q])
    requires TailMatch(text, i, e, dot, ext) && PlainExtension(ext)
    requires IsQuote(text[e - 1]) && text[i + 1] == '/'
    ensures e == j + 1
  {
    forall q | i < q < e - 1 ensures !IsQuote(text[q]) {
      if dot < q {
        assert text[q] == ext[q - dot - 1];
      }
    }
  }

  lemma AssetPathIsMatch(text: string, i: nat, j: nat)
    requires i < j < |text| && IsQuote(text[i]) && IsQuote(text[j])
    requires IsAssetPath(text[i + 1..j])
    ensures RegexMatch(text, i, j + 1)
  {
    ListedExtIff(text[i + 1..j], 0);
    var k :| 0 <= k < |Extensions| && EndsWithExt(text[i + 1..j], Extensions[k]);
    EndsWithIsTail(text, i, j, Extensions[k]);
  }

  lemma EndsWithIsTail(text: string, i: nat, j: nat, ext: string)
    requires i < j < |text|
    requires NoQuote(text[i + 1..j]) && EndsWithExt(text[i + 1..j], ext)
    ensures TailMatch(text, i, j + 1, j - |ext| - 1, ext)
  {
    var p := text[i + 1..j];
    var dot := j - |ext| - 1;
    assert text[dot..j] == p[|p| - |ext| - 1..];
    assert text[dot + 1..j] == ext;
    assert text[dot] == '.';
    forall q | i + 2 <= q < dot ensures !IsQuote(text[q]) {
      assert text[q] == p[q - i - 1];
    }
  }

  lemma MatchIsAssetPath(text: string, i: nat, j: nat)
    requires i < j < |text|
    requires forall q :: i < q < j ==> !IsQuote(text[q])
    requires RegexMatch(text, i, j + 1)
    ensures IsAssetPath(text[i + 1..j])
  {
    var k, dot :| 0 <= k < |Extensions| && TailMatch(text, i, j + 1, dot, Extensions[k]);
    TailIsEndsWith(text, i, j, dot, Extensions[k]);
    ListedExtIff(text[i + 1..j], 0);
  }

  lemma TailIsEndsWith(text: string, i: nat, j: nat, dot: int, ext: string)
    requires i < j < |text|
    requires forall q :: i < q < j ==> !IsQuote(text[q])
    requires TailMatch(text, i, j + 1, dot, ext)
    ensures NoQuote(text[i + 1..j]) && EndsWithExt(text[i + 1..j], ext)
  {
    var p := text[i + 1..j];
    assert p[|p| - |ext| - 1..] == text[dot..j];
    assert text[dot..j] == "." + ext;
    forall q | 0 <= q < |p| ensures !IsQuote(p[q]) {
      assert p[q] == text[i + 1 + q];
    }
  }

  lemma {:induction false} ScanSkipsNonQuote(text: string, pos: nat)
    requires pos < |text| && !IsQuote(text[pos])
    ensures ScanFrom(text, pos) == ScanFrom(text, pos + 1)
  {
    assert NextQuote(text, pos) == NextQuote(text, pos + 1);
  }

  lemma FindIterAtMatch(text: string, pos: nat, j: nat)
    requires pos < j < |text|
    requires RegexMatch(text, pos, j + 1)
    requires forall e :: RegexMatch(text, pos, e) ==> e == j + 1
    ensures FindIter(text, pos) == [Hit(pos, j)] + FindIter(text, j + 1)
  {
  }

  lemma FindIterNoMatch(text: string, pos: nat)
    requires pos < |text|
    requires forall e :: !RegexMatch(text, pos, e)
    ensures FindIter(text, pos) == FindIter(text, pos + 1)
  {
  }

  /** What the scanner does at an opening quote `pos` whose next quote is `j`. */
  lemma ScanAtQuote(text: string, pos: nat, j: nat)
    requires pos < |text| && IsQuote(text[pos])
    requires NextQuote(text, pos + 1) == Some(j)
    ensures IsAssetPath(text[pos + 1..j]) ==> ScanFrom(text, pos) == [Hit(pos, j)] + ScanFrom(text, j + 1)
    ensures !IsAssetPath(text[pos + 1..j]) ==> ScanFrom(text, pos) == ScanFrom(text, pos + 1)
  {
    assert NextQuote(text, pos) == Some(pos);
    ScanFromAt(text, pos, pos);
    ScanFromAt(text, pos + 1, j);
    if IsAssetPath(text[pos + 1..j]) {
      ScanOpenHit(text, pos, j);
    } else {
      ScanOpenSkip(text, pos, j);
    }
  }

  /** The scan from `from` starts at the next quote. */
  lemma ScanFromAt(text: string, from: nat, i: nat)
    requires NextQuote(text, from) == Some(i)
    ensures ScanFrom(text, from) == ScanOpen(text, i)
  {
  }

  /** A candidate quote `i` whose next quote `j` closes an asset path
      records it and goes on after `j`. */
  lemma ScanOpenHit(text: string, i: nat, j: nat)
    requires i < |text| && IsQuote(text[i])
    requires NextQuote(text, i + 1) == Some(j)
    requires IsAssetPath(text[i + 1..j])
    ensures ScanOpen(text, i) == [Hit(i, j)] + ScanFrom(text, j + 1)
  {
  }

  /** Otherwise the next quote becomes the candidate. */
  lemma ScanOpenSkip(text: string, i: nat, j: nat)
    requires i < |text| && IsQuote(text[i])
    requires NextQuote(text, i + 1) == Some(j)
    requires !IsAssetPath(text[i + 1..j])
    ensures ScanOpen(text, i) == ScanOpen(text, j)
  {
  }

  /** `finditer` at an opening quote `pos` whose next quote is `j`. */
  lemma FindIterAtQuote(text: string, pos: nat, j: nat)
    requires pos < |text| && IsQuote(text[pos])
    requires NextQuote(text, pos + 1) == Some(j)
    ensures IsAssetPath(text[pos + 1..j]) ==> FindIter(text, pos) == [Hit(pos, j)] + FindIter(text, j + 1)
    ensures !IsAssetPath(text[pos + 1..j]) ==> FindIter(text, pos) == FindIter(text, pos + 1)
  {
    if IsAssetPath(text[pos + 1..j]) {
      AssetPathIsMatch(text, pos, j);
      forall e | RegexMatch(text, pos, e) ensures e == j + 1 {
        MatchClosesAtNextQuote(text, pos, j, e);
      }
      FindIterAtMatch(text, pos, j);
    } else {
      forall e | true ensures !RegexMatch(text, pos, e) {
        if RegexMatch(text, pos, e) {
          MatchClosesAtNextQuote(text, pos, j, e);
          MatchIsAssetPath(text, pos, j);
        }
      }
      FindIterNoMatch(text, pos);
    }
  }

  /** Without a closing quote after `pos` neither search finds anything. */
  lemma NoClosingQuote(text: string, pos: nat)
    requires pos < |text|
    requires NextQuote(text, pos + 1) == None
    ensures ScanFrom(text, pos) == []
    ensures FindIter(text, pos) == FindIter(text, pos + 1)
  {
    forall e | true ensures !RegexMatch(text, pos, e) {
    }
    FindIterNoMatch(text, pos);
    if IsQuote(text[pos]) {
      assert NextQuote(text, pos) == Some(pos);
    } else {
      assert NextQuote(text, pos) == NextQuote(text, pos + 1);
    }
  }

  /** The scanner finds exactly the matches `finditer` finds, in the same
      order. */
  lemma {:induction false} ScanIsFindIter(text: string, pos: nat)
    ensures ScanFrom(text, pos) == FindIter(text, pos)
    decreases |text| - pos
  {
    if pos >= |text| {
      assert NextQuote(text, pos) == None;
    } else if !IsQuote(text[pos]) {
      ScanIsFindIter(text, pos + 1);
      NonQuoteStep(text, pos);
    } else if NextQuote(text, pos + 1).None? {
      ScanIsFindIter(text, pos + 1);
      UnclosedStep(text, pos);
    } else {
      var j := NextQuote(text, pos + 1).value;
      if IsAssetPath(text[pos + 1..j]) {
        ScanIsFindIter(text, j + 1);
      } else {
        ScanIsFindIter(text, pos + 1);
      }
      QuoteStep(text, pos, j);
    }
  }

  lemma NonQuoteStep(text: string, pos: nat)
    requires pos < |text| && !IsQuote(text[pos])
    requires ScanFrom(text, pos + 1) == FindIter(text, pos + 1)
    ensures ScanFrom(text, pos) == FindIter(text, pos)
  {
    FindIterNoMatch(text, pos);
    ScanSkipsNonQuote(text, pos);
  }

  lemma UnclosedStep(text: string, pos: nat)
    requires pos < |text| && NextQuote(text, pos + 1) == None
    requires ScanFrom(text, pos + 1) == FindIter(text, pos + 1)
    ensures ScanFrom(text, pos) == FindIter(text, pos)
  {
    NoClosingQuote(text, pos);
    assert ScanFrom(text, pos + 1) == [] by {
      if pos + 1 < |text| && !IsQuote(text[pos + 1]) {
        ScanSkipsNonQuote(text, pos + 1);
      }
    }
  }

  lemma QuoteStep(text: string, pos: nat, j: nat)
    requires pos < |text| && IsQuote(text[pos])
    requires NextQuote(text, pos + 1) == Some(j)
    requires IsAssetPath(text[pos + 1..j]) ==> ScanFrom(text, j + 1) == FindIter(text, j + 1)
    requires !IsAssetPath(text[pos + 1..j]) ==> ScanFrom(text, pos + 1) == FindIter(text, pos + 1)
    ensures ScanFrom(text, pos) == FindIter(text, pos)
  {
    ScanAtQuote(text, pos, j);
    FindIterAtQuote(text, pos, j);
  }

  /** A recorded reference: the file it was found in (as path segments
      from the project root), the literal's text, and its 1-based line. */
  datatype Ref = Ref(file: seq<string>, path: string, line: nat)

  function CountNewlines(s: string): nat
    decreases |s|
  {
    if |s| == 0 then 0 else (if s[0] == '\n' then 1 else 0) + CountNewlines(s[1..])
  }

  /** Line of offset `i`: one more than the newlines strictly before it. */
  function LineAt(text: string, i: nat): nat
    requires i <= |text|
  {
    1 + CountNewlines(text[..i])
  }

  /** All references in one file's text, in text order. */
  function RefsInText(file: seq<string>, text: string): (refs: seq<Ref>)
    ensures |refs| == |FindIter(text, 0)|
    ensures forall n :: 0 <= n < |refs| ==>
      var h := FindIter(text, 0)[n];
      && h.open < h.close < |text|
      && IsQuote(text[h.open]) && IsQuote(text[h.close])
      && refs[n] == Ref(file, text[h.open + 1..h.close], LineAt(text, h.open))
      && IsAssetPath(refs[n].path)
  {
    var hits := ScanFrom(text, 0);
    ScanIsFindIter(text, 0);
    ScanFromPaths(text, 0);
    seq(|hits|, n requires 0 <= n < |hits| =>
      assert hits[n] in hits;
      Ref(file, text[hits[n].open + 1..hits[n].close], LineAt(text, hits[n].open)))
  }

  /** `Path.suffix`: the final `.xyz` of a name, or "" when the only dot is
      the first character, the last character, or absent. */
  function Suffix(name: string): (r: string)
    ensures r == "" || (r[0] == '.' && |r| >= 2 && |r| < |name| && r == name[|name| - |r|..])
    ensures r != "" ==> '.' !in r[1..]
    ensures r != "" <==> exists i :: SuffixDot(name, i)
  {
    var i := LastDot(name, |name|);
    forall j | SuffixDot(name, j) ensures i == j {
      SuffixDotIsLast(name, j);
    }
    if 0 < i < |name| - 1 then
      var tail := name[i + 1..];
      assert forall k :: 0 <= k < |tail| ==> tail[k] != '.';
      assert SuffixDot(name, i);
      name[i..]
    else ""
  }

  /** A dot that starts a suffix is the last dot of the name. */
  lemma SuffixDotIsLast(name: string, j: int)
    requires SuffixDot(name, j)
    ensures LastDot(name, |name|) == j
  {
    var i := LastDot(name, |name|);
    assert forall q :: j < q < |name| ==> name[q] != '.' by {
      forall q | j < q < |name| ensures name[q] != '.' {
        assert name[q] == name[j + 1..][q - j - 1];
      }
    }
  }

  /** The dot at `i` starts a suffix: it is neither the first nor the last
      character of the name, and no dot follows it. */
  predicate SuffixDot(name: string, i: int) {
    0 < i < |name| - 1 && name[i] == '.' && '.' !in name[i + 1..]
  }

  /** Index of the last `.` in `name[..end]`, or -1. */
  function LastDot(name: string, end: nat): (i: int)
    requires end <= |name|
    ensures -1 <= i < end
    ensures i >= 0 ==> name[i] == '.'
    ensures forall q :: i < q < end ==> name[q] != '.'
    decreases end
  {
    if end == 0 then -1 else if name[end - 1] == '.' then end - 1 else LastDot(name, end - 1)
  }

  predicate IsCodeFile(f: SourceFile) {
    |f.segs| >= 1 && Suffix(f.segs[|f.segs| - 1]) in CodeSuffixes
  }

  /** Source files under one scan base; nothing when it is absent or is not
      a directory. */
  function BaseFiles(root: Node, base: string): seq<SourceFile> {
    match Child(root, base)
    case None => []
    case Some(n) => Under(base, Filter(Files(n), IsCodeFile))
  }

  /** `iter_code_files`: `.ts/.tsx/.js/.jsx/.css` files under `app/`,
      then under `components/`. */
  function CodeFiles(root: Node): seq<SourceFile> {
    BaseFiles(root, ScanBases[0]) + BaseFiles(root, ScanBases[1])
  }

  /** Exactly the code files that exist below `app/` or `components/` are
      scanned (a base that is missing or is a regular file contributes
      nothing). */
  lemma CodeFilesExact(root: Node, f: SourceFile)
    requires root.Dir? ==> UniqueNames(root.entries)
    ensures f in CodeFiles(root) <==>
      && |f.segs| >= 2
      && f.segs[0] in ScanBases
      && HasFile(root, f.segs, f.content)
      && IsCodeFile(f)
  {
    BaseFilesExact(root, ScanBases[0], f);
    BaseFilesExact(root, ScanBases[1], f);
  }

  lemma BaseFilesExact(root: Node, base: string, f: SourceFile)
    requires root.Dir? ==> UniqueNames(root.entries)
    ensures f in BaseFiles(root, base) <==>
      && |f.segs| >= 2
      && f.segs[0] == base
      && HasFile(root, f.segs, f.content)
      && IsCodeFile(f)
  {
    BaseFileShape(root, base, f);
    if |f.segs| >= 2 && f.segs[0] == base {
      HasFileThroughChild(root, f.segs, f.content);
      var c := Child(root, base);
      if c.Some? {
        UnderCodeFiles(c.value, base, f);
      }
    }
  }

  /** A file listed under a base has the base as its first segment and
      at least one segment below it. */
  lemma BaseFileShape(root: Node, base: string, f: SourceFile)
    ensures f in BaseFiles(root, base) ==> |f.segs| >= 2 && f.segs[0] == base
  {
    var c := Child(root, base);
    if c.Some? && f in BaseFiles(root, base) {
      UnderMembership(base, Filter(Files(c.value), IsCodeFile), f);
      FilesComplete(c.value, SourceFile(f.segs[1..], f.content));
    }
  }

  /** Below a base directory `n`, the listed files are the code files
      that exist. */
  lemma UnderCodeFiles(n: Node, base: string, f: SourceFile)
    requires |f.segs| >= 2 && f.segs[0] == base
    ensures f in Under(base, Filter(Files(n), IsCodeFile)) <==>
      HasFile(n, f.segs[1..], f.content) && IsCodeFile(f)
  {
    var fs := Filter(Files(n), IsCodeFile);
    var g := SourceFile(f.segs[1..], f.content);
    UnderMembership(base, fs, f);
    FilterMember(Files(n), IsCodeFile, g);
    FilesComplete(n, g);
    CodeFileBelow(f);
  }

  /** Dropping the leading directory keeps a file's name, so it keeps
      whether the file is scanned. */
  lemma CodeFileBelow(f: SourceFile)
    requires |f.segs| >= 2
    ensures IsCodeFile(SourceFile(f.segs[1..], f.content)) == IsCodeFile(f)
  {
    var g := SourceFile(f.segs[1..], f.content);
    assert g.segs[|g.segs| - 1] == f.segs[|f.segs| - 1];
  }

  /** The references found in one file. */
  function FileRefs(f: SourceFile): seq<Ref> {
    RefsInText(f.segs, f.content)
  }

  /** `find_refs`: references of every scanned file, file after file. */
  function FindRefs(root: Node): seq<Ref> {
    FlatMap(CodeFiles(root), FileRefs)
  }

  /** Total number of pattern matches over the files: every match is one
      reference, duplicates included. */
  ghost function MatchCount(fs: seq<SourceFile>): nat
    decreases |fs|
  {
    if fs == [] then 0 else |FindIter(fs[0].content, 0)| + MatchCount(fs[1..])
  }

  /** Every match of every file becomes one reference. */
  lemma {:induction false} RefsCount(fs: seq<SourceFile>)
    ensures |FlatMap(fs, FileRefs)| == MatchCount(fs)
    decreases |fs|
  {
    if fs != [] {
      RefsCount(fs[1..]);
    }
  }

  /** The references found are those of the scanned files, one per match:
      a reference comes from a scanned file, and each scanned file's
      references all appear. */
  lemma FindRefsFromFiles(root: Node, r: Ref)
    ensures |FindRefs(root)| == MatchCount(CodeFiles(root))
    ensures r in FindRefs(root) <==> exists f :: f in CodeFiles(root) && r in FileRefs(f)
  {
    var fs := CodeFiles(root);
    RefsCount(fs);
    FlatMapMember(fs, FileRefs, r);
  }
}
