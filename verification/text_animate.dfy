/** The animated-text component's splitting of its content into animated
    pieces (whole text, words, characters or lines), the separator
    rendered after each piece, and the stagger between pieces. */
module TextAnimate {
  import opened Wrappers
  import opened Seqs

  /** The component's children: a string, or any other React node. */
  datatype Children = TextChild(s: string) | OtherChild

  /** One animated piece: a piece of the string, or the whole non-string
      node. */
  datatype Item = Piece(s: string) | Node

  /** What is rendered after a piece. */
  datatype Suffix = NoSuffix | Nbsp | LineBreak

  datatype Span = Span(item: Item, suffix: Suffix)

  const NbspChar: char := '\U{00A0}'

  /** The `by` prop; an absent one means `"word"`. */
  function ByOrDefault(mode: Option<string>): (r: string)
    ensures mode.None? ==> r == "word"
    ensures mode.Some? ==> r == mode.value
  {
    mode.GetOr("word")
  }

  function Pieces(parts: seq<string>): (r: seq<Item>)
    ensures |r| == |parts|
    ensures forall k :: 0 <= k < |r| ==> r[k] == Piece(parts[k])
  {
    seq(|parts|, k requires 0 <= k < |parts| => Piece(parts[k]))
  }

  /** `splitText()`. */
  function SplitText(children: Children, mode: string): (r: seq<Item>)
    ensures mode != "character" ==> |r| >= 1
    ensures children.OtherChild? || mode == "text" ==>
      r == [if children.TextChild? then Piece(children.s) else Node]
  {
    match children
    case OtherChild => [Node]
    case TextChild(s) =>
      if mode == "text" then [Piece(s)]
      else if mode == "word" then Pieces(Split(s, ' '))
      else if mode == "character" then Pieces(SplitChars(s))
      else if mode == "line" then Pieces(Split(s, '\n'))
      else Pieces(Split(s, ' '))
  }

  /** `staggerTimings[by]`, undefined for any other `by`. */
  function StaggerTiming(mode: string): (r: Option<real>)
    ensures r.Some? <==> mode in {"text", "word", "character", "line"}
  {
    if mode == "text" then Some(0.06)
    else if mode == "word" then Some(0.05)
    else if mode == "character" then Some(0.03)
    else if mode == "line" then Some(0.06)
    else None
  }

  /** The separator after the piece at `index` of `count`: a non-breaking
      space in word mode and a line break in line mode, after every string
      piece but the last. */
  function SuffixAt(mode: string, item: Item, index: nat, count: nat): (r: Suffix)
    ensures r != NoSuffix ==> item.Piece? && index + 1 < count
    ensures r == Nbsp <==> item.Piece? && mode == "word" && index + 1 < count
    ensures r == LineBreak <==> item.Piece? && mode == "line" && index + 1 < count
  {
    if item.Piece? && mode == "word" && index + 1 < count then Nbsp
    else if item.Piece? && mode == "line" && index + 1 < count then LineBreak
    else NoSuffix
  }

  /** The rendered spans, one per item. */
  function Spans(items: seq<Item>, mode: string): (r: seq<Span>)
    ensures |r| == |items|
    ensures forall k :: 0 <= k < |r| ==> r[k] == Span(items[k], SuffixAt(mode, items[k], k, |items|))
  {
    seq(|items|, k requires 0 <= k < |items| => Span(items[k], SuffixAt(mode, items[k], k, |items|)))
  }

  /** The characters a run of spans shows, with a non-breaking space for
      ` ` and a newline for `<br />`. */
  function Visible(spans: seq<Span>): string
    decreases |spans|
  {
    if |spans| == 0 then ""
    else
      var sp := spans[0];
      (if sp.item.Piece? then sp.item.s else "") +
      (match sp.suffix case NoSuffix => "" case Nbsp => [NbspChar] case LineBreak => "\n") +
      Visible(spans[1..])
  }

  /** Dropping the first item shifts the spans by one. */
  lemma SpansTail(items: seq<Item>, mode: string)
    requires |items| >= 1
    ensures Spans(items, mode)[1..] == Spans(items[1..], mode)
  {
  }

  /** Spans of string pieces show the pieces joined by `sep`. */
  lemma {:induction false} VisibleJoin(parts: seq<string>, mode: string, sep: char)
    requires |parts| >= 1
    requires (mode == "word" && sep == NbspChar) || (mode == "line" && sep == '\n')
    ensures Visible(Spans(Pieces(parts), mode)) == Join(parts, sep)
    decreases |parts|
  {
    var items := Pieces(parts);
    var spans := Spans(items, mode);
    SpansTail(items, mode);
    assert items[1..] == Pieces(parts[1..]);
    if |parts| == 1 {
      assert spans[1..] == [];
    } else {
      VisibleJoin(parts[1..], mode, sep);
    }
  }

  /** Spans without separators show the pieces back to back. */
  lemma {:induction false} VisibleConcat(parts: seq<string>, mode: string)
    requires mode != "word" && mode != "line"
    ensures Visible(Spans(Pieces(parts), mode)) == Concat(parts)
    decreases |parts|
  {
    if |parts| > 0 {
      var items := Pieces(parts);
      SpansTail(items, mode);
      assert items[1..] == Pieces(parts[1..]);
      VisibleConcat(parts[1..], mode);
    }
  }

  /** `s` with every `from` replaced by `to`. */
  function Replace(s: string, from: char, to: char): (r: string)
    ensures |r| == |s|
    ensures forall k :: 0 <= k < |s| ==> r[k] == if s[k] == from then to else s[k]
  {
    seq(|s|, k requires 0 <= k < |s| => if s[k] == from then to else s[k])
  }

  /** Splitting on `sep` and joining on `to` replaces each `sep`. */
  lemma {:induction false} JoinSplitReplace(s: string, sep: char, to: char)
    ensures Join(Split(s, sep), to) == Replace(s, sep, to)
    decreases |s|
  {
    if |s| > 0 {
      var rest := Split(s[1..], sep);
      JoinSplitReplace(s[1..], sep, to);
      ReplaceCons(s, sep, to);
      if s[0] == sep {
        JoinConsEmpty(rest, to);
      } else {
        JoinConsChar(s[0], rest, to);
      }
    }
  }

  lemma ReplaceCons(s: string, from: char, to: char)
    requires |s| > 0
    ensures Replace(s, from, to) == [if s[0] == from then to else s[0]] + Replace(s[1..], from, to)
  {
  }

  /** What a string renders as in each mode: word mode shows every space
      as a non-breaking space, line mode shows the string with `<br />`
      for each newline, and the character and whole-text modes show it
      unchanged. An unrecognised `by` splits like word mode but renders
      no separators, so the spaces disappear. */
  lemma RenderedText(s: string)
    ensures Visible(Spans(SplitText(TextChild(s), "word"), "word")) == Replace(s, ' ', NbspChar)
    ensures Visible(Spans(SplitText(TextChild(s), "line"), "line")) == s
    ensures Visible(Spans(SplitText(TextChild(s), "character"), "character")) == s
    ensures Visible(Spans(SplitText(TextChild(s), "text"), "text")) == s
  {
    VisibleJoin(Split(s, ' '), "word", NbspChar);
    JoinSplitReplace(s, ' ', NbspChar);
    VisibleJoin(Split(s, '\n'), "line", '\n');
    JoinSplit(s, '\n');
    VisibleConcat(SplitChars(s), "character");
    VisibleConcat([s], "text");
    assert Concat([s]) == s + Concat([]);
  }

  /** An unrecognised `by` renders the words with nothing between them. */
  lemma UnknownModeDropsSpaces(s: string, mode: string)
    requires mode !in {"text", "word", "character", "line"}
    ensures SplitText(TextChild(s), mode) == SplitText(TextChild(s), "word")
    ensures Visible(Spans(SplitText(TextChild(s), mode), mode)) == Concat(Split(s, ' '))
    ensures StaggerTiming(mode).None?
  {
    VisibleConcat(Split(s, ' '), mode);
  }

  /** Character mode gives one piece per character; word and line mode
      give pieces free of their separator, which join back to the
      string. */
  lemma SplitPieces(s: string)
    ensures |SplitText(TextChild(s), "character")| == |s|
    ensures forall k :: 0 <= k < |s| ==> SplitText(TextChild(s), "character")[k] == Piece([s[k]])
    ensures forall k :: 0 <= k < |Split(s, ' ')| ==> ' ' !in Split(s, ' ')[k]
    ensures SplitText(TextChild(s), "word") == Pieces(Split(s, ' ')) && Join(Split(s, ' '), ' ') == s
    ensures SplitText(TextChild(s), "line") == Pieces(Split(s, '\n')) && Join(Split(s, '\n'), '\n') == s
  {
    JoinSplit(s, ' ');
    JoinSplit(s, '\n');
  }
}
