/** The handle shown on a team member's card: a slash, then the name
    lower-cased with every run of whitespace turned into one hyphen. */
module MemberSlug {
  import opened Text
  import opened Seqs

  /** `s.replace(/\s+/g, '-')`: each maximal run of whitespace becomes a
      single `-`. */
  function Hyphenate(s: string): (r: string)
    ensures NoJsSpace(r)
    ensures (forall k :: 0 <= k < |s| ==> !IsAsciiUpper(s[k])) ==>
      forall k :: 0 <= k < |r| ==> !IsAsciiUpper(r[k])
    decreases |s|
  {
    if |s| == 0 then ""
    else if IsJsSpace(s[0]) then
      var t := TrimStart(s[1..]);
      assert forall k :: 0 <= k < |t| ==> t[k] == s[|s| - |t| + k];
      "-" + Hyphenate(t)
    else
      assert forall k :: 0 <= k < |s| - 1 ==> s[1..][k] == s[k + 1];
      [s[0]] + Hyphenate(s[1..])
  }

  /** The card's handle for `name`. */
  function Handle(name: string): (r: string)
    ensures |r| >= 1 && r[0] == '/'
    ensures NoJsSpace(r)
    ensures forall k :: 0 <= k < |r| ==> !IsAsciiUpper(r[k])
  {
    "/" + Hyphenate(Lower(name))
  }

  /** A run of whitespace (up to a non-space or the end) becomes one `-`. */
  lemma SpaceRun(spaces: string, rest: string)
    requires |spaces| >= 1 && forall k :: 0 <= k < |spaces| ==> IsJsSpace(spaces[k])
    requires |rest| > 0 ==> !IsJsSpace(rest[0])
    ensures Hyphenate(spaces + rest) == "-" + Hyphenate(rest)
  {
    assert (spaces + rest)[1..] == spaces[1..] + rest;
    TrimStartSpaces(spaces[1..], rest);
  }

  /** A non-space character is kept as it is. */
  lemma KeepsNonSpace(c: char, rest: string)
    requires !IsJsSpace(c)
    ensures Hyphenate([c] + rest) == [c] + Hyphenate(rest)
  {
    assert ([c] + rest)[1..] == rest;
  }

  /** The characters that are neither whitespace nor `-`. */
  predicate Kept(c: char) { !IsJsSpace(c) && c != '-' }

  /** Hyphenating keeps every character other than whitespace and `-`,
      in order. */
  lemma {:induction false} HyphenateKeeps(s: string)
    ensures Filter(Hyphenate(s), Kept) == Filter(s, Kept)
    decreases |s|
  {
    if |s| > 0 {
      var t := TrimStart(s[1..]);
      if IsJsSpace(s[0]) {
        HyphenateKeeps(t);
        FilterAppend("-", Hyphenate(t), Kept);
        TrimStartKeeps(s[1..]);
      } else {
        HyphenateKeeps(s[1..]);
        FilterAppend([s[0]], Hyphenate(s[1..]), Kept);
      }
    }
  }

  /** `TrimStart` only drops characters that `Kept` rejects. */
  lemma {:induction false} TrimStartKeeps(s: string)
    ensures Filter(TrimStart(s), Kept) == Filter(s, Kept)
    decreases |s|
  {
    if |s| > 0 && IsJsSpace(s[0]) {
      TrimStartKeeps(s[1..]);
    }
  }

  /** The handle keeps the name's characters other than whitespace and
      `-`, lower-cased and in order. */
  lemma HandleKeepsName(name: string)
    ensures Filter(Handle(name)[1..], Kept) == Filter(Lower(name), Kept)
  {
    assert Handle(name)[1..] == Hyphenate(Lower(name));
    HyphenateKeeps(Lower(name));
  }
}
