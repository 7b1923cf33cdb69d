/** The newsletter sign-up endpoint: the presence check on `email`, the
    trim-and-lower-case normalisation, the `EMAIL_REGEX` test, and the
    status codes of the outcomes. The request body, the subscriber store
    and its errors are parameters. */
module Newsletter {
  import opened Wrappers
  import opened Text

  /** A JSON value in the request body as the handler sees it: a string,
      or some other value together with its JavaScript truthiness. */
  datatype JsValue = JsString(s: string) | JsOther(truthy: bool)

  /** The parsed body, or a body that `request.json()` rejects or that
      cannot be destructured (JSON `null`); both end in the handler's
      `catch`. A missing field is `None` (`undefined`). */
  datatype Request = Malformed | Body(email: Option<JsValue>, source: Option<JsValue>)

  /** The row handed to the store's upsert. */
  datatype Record = Record(email: string, source: Option<JsValue>)

  /** What the store does with a row: stores it (or ignores a duplicate),
      returns an error, or throws. */
  datatype StoreOutcome = Stored | StoreError | Threw

  /** The response, and the row the handler tried to store, if any. */
  datatype Outcome = Outcome(status: int, message: string, attempted: Option<Record>)

  const EmailRequired := "Email is required"
  const InvalidFormat := "Invalid email format"
  const SubscribeFailed := "Failed to subscribe. Please try again."
  const Subscribed := "Successfully subscribed!"
  const Unexpected := "An unexpected error occurred"

  predicate Truthy(v: Option<JsValue>) {
    match v
    case None => false
    case Some(JsString(s)) => s != ""
    case Some(JsOther(t)) => t
  }

  /** `email.trim().toLowerCase()`. */
  function Normalize(email: string): string {
    Lower(Trim(email))
  }

  // ---------------------------------------------------------------------
  // EMAIL_REGEX = /^[^\s@]+@[^\s@]+\.[^\s@]+$/

  /** A character matched by `[^\s@]`. */
  predicate IsPlain(c: char) { !IsJsSpace(c) && c != '@' }

  predicate AllPlain(t: string) {
    forall k :: 0 <= k < |t| ==> IsPlain(t[k])
  }

  /** The regular expression read literally: three non-empty runs of
      `[^\s@]`, the first two separated by `@` at `a` and the last two by
      `.` at `j`. */
  ghost predicate MatchesEmailRegex(s: string) {
    exists a, j :: 0 < a && a + 1 < j < |s| - 1 && s[a] == '@' && s[j] == '.' &&
      AllPlain(s[..a]) && AllPlain(s[a + 1..j]) && AllPlain(s[j + 1..])
  }

  /** The first position of `c` in `s`. */
  function FirstIndex(s: string, c: char): (r: Option<nat>)
    ensures r.Some? ==> r.value < |s| && s[r.value] == c && c !in s[..r.value]
    ensures r.None? ==> c !in s
    decreases |s|
  {
    if |s| == 0 then None
    else if s[0] == c then Some(0)
    else match FirstIndex(s[1..], c)
      case None => None
      case Some(i) =>
        assert s[..i + 1] == [s[0]] + s[1..][..i];
        Some(i + 1)
  }

  /** A left-to-right check: a non-empty plain local part up to the first
      `@`, then a plain domain with a `.` strictly inside it. */
  function ValidEmail(s: string): bool {
    match FirstIndex(s, '@')
    case None => false
    case Some(a) =>
      var domain := s[a + 1..];
      a > 0 && AllPlain(s[..a]) && AllPlain(domain) &&
      |domain| >= 3 && '.' in domain[1..|domain| - 1]
  }

  /** The check accepts exactly the strings the regular expression
      matches. */
  lemma ValidEmailIff(s: string)
    ensures ValidEmail(s) <==> MatchesEmailRegex(s)
  {
    if ValidEmail(s) {
      ScanMatches(s);
    }
    if MatchesEmailRegex(s) {
      var a, j :| 0 < a && a + 1 < j < |s| - 1 && s[a] == '@' && s[j] == '.' &&
        AllPlain(s[..a]) && AllPlain(s[a + 1..j]) && AllPlain(s[j + 1..]);
      MatchScans(s, a, j);
    }
  }

  lemma ScanMatches(s: string)
    requires ValidEmail(s)
    ensures MatchesEmailRegex(s)
  {
    var a := FirstIndex(s, '@').value;
    var domain := s[a + 1..];
    var inner := domain[1..|domain| - 1];
    var m :| 0 <= m < |inner| && inner[m] == '.';
    var j := a + 2 + m;
    assert inner[m] == domain[m + 1] == s[j];
    SliceOfSlice(s, a + 1, 0, m + 1);
    SliceOfSlice(s, a + 1, m + 2, |domain|);
    AllPlainSlice(domain, 0, m + 1);
    AllPlainSlice(domain, m + 2, |domain|);
    assert AllPlain(s[a + 1..j]) && AllPlain(s[j + 1..]);
    assert 0 < a && a + 1 < j < |s| - 1 && s[a] == '@' && s[j] == '.';
  }

  lemma AllPlainSlice(t: string, lo: nat, hi: nat)
    requires AllPlain(t) && lo <= hi <= |t|
    ensures AllPlain(t[lo..hi])
  {
    assert forall k :: 0 <= k < hi - lo ==> t[lo..hi][k] == t[lo + k];
  }

  lemma SliceOfSlice(s: string, i: nat, k: nat, l: nat)
    requires i <= |s| && k <= l <= |s| - i
    ensures s[i..][k..l] == s[i + k..i + l]
  {
  }

  lemma MatchScans(s: string, a: nat, j: nat)
    requires 0 < a && a + 1 < j < |s| - 1 && s[a] == '@' && s[j] == '.'
    requires AllPlain(s[..a]) && AllPlain(s[a + 1..j]) && AllPlain(s[j + 1..])
    ensures ValidEmail(s)
  {
    assert '@' !in s[..a];
    FirstAtIs(s, a);
    var domain := s[a + 1..];
    assert domain == s[a + 1..j] + [s[j]] + s[j + 1..];
    assert domain[1..|domain| - 1][j - a - 2] == '.';
  }

  /** An `@` with none before it is the first one. */
  lemma {:induction false} FirstAtIs(s: string, a: nat)
    requires a < |s| && s[a] == '@' && '@' !in s[..a]
    ensures FirstIndex(s, '@') == Some(a)
    decreases a
  {
    if a > 0 {
      assert s[0] in s[..a];
      assert s[1..][..a - 1] == s[..a][1..];
      assert forall x :: x in s[..a][1..] ==> x in s[..a];
      FirstAtIs(s[1..], a - 1);
    }
  }

  /** What the handler decides about the `email` field before touching
      the store. */
  datatype Verdict = Required | BadFormat | Accepted(email: string)

  /** The presence check, then normalisation, then the format test. */
  function CheckEmail(email: Option<JsValue>): (v: Verdict)
    ensures v == Required <==> !(Truthy(email) && email.value.JsString?)
    ensures v == BadFormat <==>
      Truthy(email) && email.value.JsString? && !MatchesEmailRegex(Normalize(email.value.s))
    ensures v.Accepted? ==>
      email.Some? && email.value.JsString? &&
      v.email == Normalize(email.value.s) && MatchesEmailRegex(v.email)
  {
    if !Truthy(email) || !email.value.JsString? then Required
    else
      var normalized := Normalize(email.value.s);
      ValidEmailIff(normalized);
      if ValidEmail(normalized) then Accepted(normalized) else BadFormat
  }

  /** The handler's `POST`, with `store` standing for the upsert. */
  function Post(req: Request, store: Record -> StoreOutcome): (o: Outcome)
    ensures o.status == 200 || o.status == 400 || o.status == 500
    ensures req.Malformed? ==> o == Outcome(500, Unexpected, None)
    ensures req.Body? && CheckEmail(req.email) == Required ==> o == Outcome(400, EmailRequired, None)
    ensures req.Body? && CheckEmail(req.email) == BadFormat ==> o == Outcome(400, InvalidFormat, None)
    ensures o.attempted.Some? <==> req.Body? && CheckEmail(req.email).Accepted?
    ensures o.attempted.Some? ==>
      o.attempted.value.email == CheckEmail(req.email).email &&
      o.attempted.value.source == (if Truthy(req.source) then req.source else None)
    ensures o.status == 200 <==> o.attempted.Some? && store(o.attempted.value) == Stored
  {
    match req
    case Malformed => Outcome(500, Unexpected, None)
    case Body(email, source) => Respond(CheckEmail(email), source, store)
  }

  /** The response to a well-formed body once the email has been judged. */
  function Respond(v: Verdict, source: Option<JsValue>, store: Record -> StoreOutcome): (o: Outcome)
    ensures v == Required ==> o == Outcome(400, EmailRequired, None)
    ensures v == BadFormat ==> o == Outcome(400, InvalidFormat, None)
    ensures v.Accepted? ==>
      && o.attempted == Some(Record(v.email, if Truthy(source) then source else None))
      && (o.status == 200 || o.status == 500)
      && (o.status == 200 <==> store(o.attempted.value) == Stored)
  {
    match v
    case Required => Outcome(400, EmailRequired, None)
    case BadFormat => Outcome(400, InvalidFormat, None)
    case Accepted(normalized) =>
      var row := Record(normalized, if Truthy(source) then source else None);
      match store(row)
      case Stored => Outcome(200, Subscribed, Some(row))
      case StoreError => Outcome(500, SubscribeFailed, Some(row))
      case Threw => Outcome(500, Unexpected, Some(row))
  }

  /** The response depends on the email only through its normalised form,
      so two emails that normalise alike are treated alike. */
  lemma PostSeesNormalized(e1: string, e2: string, source: Option<JsValue>, store: Record -> StoreOutcome)
    requires e1 != "" && e2 != "" && Normalize(e1) == Normalize(e2)
    ensures Post(Body(Some(JsString(e1)), source), store) == Post(Body(Some(JsString(e2)), source), store)
  {
    SameVerdict(e1, e2);
    PostByVerdict(Body(Some(JsString(e1)), source), Body(Some(JsString(e2)), source), store);
  }

  lemma SameVerdict(e1: string, e2: string)
    requires e1 != "" && e2 != "" && Normalize(e1) == Normalize(e2)
    ensures CheckEmail(Some(JsString(e1))) == CheckEmail(Some(JsString(e2)))
  {
    VerdictOfString(e1);
    VerdictOfString(e2);
  }

  /** A non-empty string is judged on its normalised form alone. */
  lemma VerdictOfString(e: string)
    requires e != ""
    ensures CheckEmail(Some(JsString(e))) ==
      if ValidEmail(Normalize(e)) then Accepted(Normalize(e)) else BadFormat
  {
    assert Truthy(Some(JsString(e)));
  }

  lemma PostByVerdict(r1: Request, r2: Request, store: Record -> StoreOutcome)
    requires r1.Body? && r2.Body? && r1.source == r2.source
    requires CheckEmail(r1.email) == CheckEmail(r2.email)
    ensures Post(r1, store) == Post(r2, store)
  {
  }

  // ---------------------------------------------------------------------
  // Normalisation

  /** Normalising twice changes nothing. */
  lemma NormalizeIdempotent(email: string)
    ensures Normalize(Normalize(email)) == Normalize(email)
  {
    var t := Trim(email);
    TrimmedEnds(email);
    TrimKeepsTrimmed(Lower(t));
    LowerIdempotent(t);
  }

  /** A trimmed string starts and ends with a non-space. */
  lemma TrimmedEnds(s: string)
    ensures var t := Trim(s); |t| > 0 ==> !IsJsSpace(t[0]) && !IsJsSpace(t[|t| - 1])
  {
    var u := TrimStart(s);
    TrimEndKeepsFirst(u);
  }

  /** `TrimEnd` keeps the first character when anything is left. */
  lemma TrimEndKeepsFirst(u: string)
    ensures var t := TrimEnd(u); |t| > 0 ==> t[0] == u[0]
  {
    var t := TrimEnd(u);
    if |t| > 0 {
      assert t == u[..|t|];
    }
  }

  /** Trimming a string whose ends are not spaces changes nothing. */
  lemma TrimKeepsTrimmed(s: string)
    requires |s| > 0 ==> !IsJsSpace(s[0]) && !IsJsSpace(s[|s| - 1])
    ensures Trim(s) == s
  {
  }

  /** Surrounding whitespace never matters. */
  lemma PaddingIgnored(before: string, email: string, after: string)
    requires forall k :: 0 <= k < |before| ==> IsJsSpace(before[k])
    requires forall k :: 0 <= k < |after| ==> IsJsSpace(after[k])
    ensures Normalize(before + email + after) == Normalize(email)
  {
    assert before + email + after == before + (email + after);
    TrimStartSpaces(before, email + after);
    TrimStartAppend(email, after);
    if |TrimStart(email)| > 0 {
      TrimEndSpaces(TrimStart(email), after);
    } else {
      TrimStartSpaces(after, "");
      assert after + "" == after;
    }
    assert Trim(before + email + after) == Trim(email);
  }

  /** Trailing spaces are dropped by `TrimEnd`. */
  lemma {:induction false} TrimEndSpaces(s: string, spaces: string)
    requires forall k :: 0 <= k < |spaces| ==> IsJsSpace(spaces[k])
    ensures TrimEnd(s + spaces) == TrimEnd(s)
    decreases |spaces|
  {
    if |spaces| > 0 {
      var n := |spaces| - 1;
      assert (s + spaces)[..|s + spaces| - 1] == s + spaces[..n];
      TrimEndSpaces(s, spaces[..n]);
    } else {
      assert s + spaces == s;
    }
  }

  /** `TrimStart` of `s + t` is `TrimStart(s) + t` unless `s` is all
      spaces. */
  lemma {:induction false} TrimStartAppend(s: string, t: string)
    ensures |TrimStart(s)| > 0 ==> TrimStart(s + t) == TrimStart(s) + t
    ensures |TrimStart(s)| == 0 ==> TrimStart(s + t) == TrimStart(t)
    decreases |s|
  {
    if |s| == 0 {
      assert s + t == t;
    } else if IsJsSpace(s[0]) {
      assert (s + t)[1..] == s[1..] + t;
      TrimStartAppend(s[1..], t);
    }
  }

  /** Lower-casing commutes with trimming, so upper-case letters never
      matter either. */
  lemma CaseIgnored(email: string)
    ensures Normalize(Lower(email)) == Normalize(email)
  {
    TrimStartLower(email);
    TrimEndLower(TrimStart(email));
    LowerIdempotent(Trim(email));
  }

  lemma {:induction false} TrimStartLower(s: string)
    ensures TrimStart(Lower(s)) == Lower(TrimStart(s))
    decreases |s|
  {
    if |s| > 0 {
      assert Lower(s)[1..] == Lower(s[1..]);
      TrimStartLower(s[1..]);
    }
  }

  lemma {:induction false} TrimEndLower(s: string)
    ensures TrimEnd(Lower(s)) == Lower(TrimEnd(s))
    decreases |s|
  {
    if |s| > 0 {
      assert Lower(s)[..|s| - 1] == Lower(s[..|s| - 1]);
      TrimEndLower(s[..|s| - 1]);
    }
  }
}
