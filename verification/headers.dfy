/** Header inspection: which of a fixed checklist of security headers a
    HEAD response carries, and the percentage score derived from it. The
    HTTP request itself is not modelled; its outcome is the input. */
module HeaderInspector {
  import opened Seqs
  import Text
  import Rounding

  /** The checklist, in the order the findings list it. */
  const SecurityHeaders: seq<string> := [
    "strict-transport-security",
    "content-security-policy",
    "x-frame-options",
    "x-content-type-options",
    "x-xss-protection",
    "referrer-policy"
  ]

  /** What the HEAD request produced: an exception (its message), or a
      response with a status code and the header names it carried. Header
      values do not matter to the classification. */
  datatype HeadResponse =
    | RequestFailed(error: string)
    | Responded(statusCode: int, headerNames: seq<string>)

  /** The extra field of a finding: the response status, or the error text. */
  datatype Outcome = Status(code: int) | Error(message: string)

  datatype HeaderFinding = HeaderFinding(
    missing: seq<string>,
    present: seq<string>,
    score: int,
    outcome: Outcome)

  /** The keys of the lower-cased header dictionary. */
  function ResponseKeys(names: seq<string>): set<string> {
    set i | 0 <= i < |names| :: Text.Lower(names[i])
  }

  /** The loop over the checklist: entries found among `keys` go to the first
      list, the others to the second, each in checklist order. */
  function Split(checklist: seq<string>, keys: set<string>): (r: (seq<string>, seq<string>))
    ensures forall h :: h in r.0 <==> h in checklist && h in keys
    ensures forall h :: h in r.1 <==> h in checklist && h !in keys
    ensures IsSubseq(r.0, checklist) && IsSubseq(r.1, checklist)
    ensures multiset(r.0) + multiset(r.1) == multiset(checklist)
  {
    if |checklist| == 0 then ([], [])
    else
      var rest := Split(checklist[1..], keys);
      assert checklist == [checklist[0]] + checklist[1..];
      if checklist[0] in keys then ([checklist[0]] + rest.0, rest.1)
      else (rest.0, [checklist[0]] + rest.1)
  }

  /** The percentage for each count of present headers, 0 through 6. */
  const PercentByPresent: seq<int> := [0, 17, 33, 50, 67, 83, 100]

  /** `round(len(present) / len(checklist) * 100)`. */
  function Percent(present: nat): (score: int)
    requires present <= |SecurityHeaders|
    ensures 0 <= score <= 100
    ensures Rounding.IsPythonRound(score, 100 * present, |SecurityHeaders|)
    ensures score == 0 <==> present == 0
    ensures score == 100 <==> present == |SecurityHeaders|
    ensures score == PercentByPresent[present]
  {
    var score := Rounding.RoundDiv(100 * present, |SecurityHeaders|);
    assert score == PercentByPresent[present];
    score
  }

  /** Every checklist entry is already in lower case. */
  lemma ChecklistIsLowerCase(h: string)
    requires h in SecurityHeaders
    ensures Text.Lower(h) == h
  {
    Text.LowerFixesLowerCase(h);
  }

  /** A checklist entry is a key of the lower-cased dictionary exactly when
      some response header name equals it up to case. */
  lemma KeyIffNamed(names: seq<string>, h: string)
    requires h in SecurityHeaders
    ensures h in ResponseKeys(names) <==>
      exists i :: 0 <= i < |names| && Text.EqualIgnoringCase(names[i], h)
  {
    ChecklistIsLowerCase(h);
  }

  /** The finding `check_security_headers` returns for a HEAD outcome. */
  function Inspect(response: HeadResponse): (f: HeaderFinding)
    ensures response.RequestFailed? ==>
      f == HeaderFinding(SecurityHeaders, [], 0, Error(response.error))
    ensures response.Responded? ==> f.outcome == Status(response.statusCode)
    ensures forall h :: h in f.present <==>
      && h in SecurityHeaders
      && response.Responded?
      && exists i :: 0 <= i < |response.headerNames| && Text.EqualIgnoringCase(response.headerNames[i], h)
    ensures forall h :: h in f.missing <==> h in SecurityHeaders && h !in f.present
    ensures multiset(f.present) + multiset(f.missing) == multiset(SecurityHeaders)
    ensures IsSubseq(f.present, SecurityHeaders) && IsSubseq(f.missing, SecurityHeaders)
    ensures |f.present| <= |SecurityHeaders|
    ensures Rounding.IsPythonRound(f.score, 100 * |f.present|, |SecurityHeaders|)
    ensures 0 <= f.score <= 100
    ensures f.score == 0 <==> f.present == []
    ensures f.score == 100 <==> f.missing == []
    ensures f.score == PercentByPresent[|f.present|]
  {
    match response
    case RequestFailed(e) =>
      assert multiset(SecurityHeaders) == multiset([]) + multiset(SecurityHeaders);
      assert IsSubseq([], SecurityHeaders);
      HeaderFinding(SecurityHeaders, [], 0, Error(e))
    case Responded(code, names) =>
      var keys := ResponseKeys(names);
      var (present, missing) := Split(SecurityHeaders, keys);
      assert |multiset(present)| + |multiset(missing)| == |SecurityHeaders|;
      forall h | h in SecurityHeaders
        ensures h in keys <==> exists i :: 0 <= i < |names| && Text.EqualIgnoringCase(names[i], h)
      {
        KeyIffNamed(names, h);
      }
      HeaderFinding(missing, present, Percent(|present|), Status(code))
  }

  /** Header names are matched without regard to case: responses whose names
      agree up to case give the same finding. */
  lemma NamesMatchIgnoringCase(code: int, names: seq<string>, names': seq<string>)
    requires |names| == |names'|
    requires forall i :: 0 <= i < |names| ==> Text.EqualIgnoringCase(names[i], names'[i])
    ensures Inspect(Responded(code, names)) == Inspect(Responded(code, names'))
  {
    assert ResponseKeys(names) == ResponseKeys(names');
  }

  /** A failed request is scored as the worst case any response could get:
      nothing present, everything missing, score 0. */
  lemma FailureIsWorstCase(error: string, response: HeadResponse)
    ensures Inspect(RequestFailed(error)).score <= Inspect(response).score
    ensures forall h :: h in Inspect(RequestFailed(error)).present ==> h in Inspect(response).present
    ensures forall h :: h in Inspect(response).missing ==> h in Inspect(RequestFailed(error)).missing
  {
  }
}
