/** The risk aggregator (`calculate_risk_score`): a weighted score out of
    100 from the SSL, header and port findings, a risk tier, and ordered
    recommendations. Pure and total. */
module RiskAggregator {
  import opened Seqs
  import Text
  import Rounding
  import HI = HeaderInspector
  import PS = PortScanner

  /** The two fields of the SSL finding the aggregator reads. The issuer,
      subject, expiry text and error message do not affect the assessment. */
  datatype SslFinding = SslFinding(valid: bool, daysRemaining: int)

  datatype RiskLevel = LowRisk | MediumRisk | HighRisk

  /** The recommendations the aggregator can make; `Message` gives the text
      that appears in the report. */
  datatype Advice =
    | RenewSoon
    | CertificateExpired
    | FixCertificate
    | AddCsp
    | AddFrameOptions
    | AddHsts
    | ClosePorts(ports: seq<int>)
    | TooManyPorts(ports: seq<int>)

  datatype RiskAssessment = RiskAssessment(
    overallRisk: RiskLevel,
    securityScore: int,
    recommendations: seq<Advice>)

  /** Ports that are expected to be open and never draw a recommendation. */
  const ExpectedPorts: seq<int> := [80, 443]

  /** The text of a risk tier in the report. */
  function Label(level: RiskLevel): (s: string)
    ensures s == "LOW RISK" <==> level == LowRisk
    ensures s == "MEDIUM RISK" <==> level == MediumRisk
    ensures s == "HIGH RISK" <==> level == HighRisk
  {
    match level
    case LowRisk => "LOW RISK"
    case MediumRisk => "MEDIUM RISK"
    case HighRisk => "HIGH RISK"
  }

  /** Distinct tiers are reported with distinct labels. */
  lemma LabelInjective(a: RiskLevel, b: RiskLevel)
    ensures Label(a) == Label(b) ==> a == b
  {
  }

  /** `map(str, ports)`: each port as a numeral that reads back as the port,
      signed exactly when negative and without a leading zero, which
      `Text.IntDecimalUnique` shows leaves one text per port. */
  function Decimals(ports: seq<int>): (texts: seq<string>)
    ensures |texts| == |ports|
    ensures forall i :: 0 <= i < |ports| ==>
      Text.IsNumeral(texts[i]) && Text.SignedDecimalValue(texts[i]) == ports[i] &&
      (ports[i] < 0 <==> texts[i][0] == '-') &&
      (|texts[i]| >= 2 ==> texts[i][if ports[i] < 0 then 1 else 0] != '0')
  {
    var texts := seq(|ports|, i requires 0 <= i < |ports| => Text.IntToDecimal(ports[i]));
    forall i | 0 <= i < |ports|
      ensures Text.IsNumeral(texts[i]) && Text.SignedDecimalValue(texts[i]) == ports[i]
    {
      Text.IntDecimalRoundTrip(ports[i]);
    }
    texts
  }

  /** The port list as it appears in a recommendation: `", ".join(map(str, ports))`.
      It is empty exactly when there are no ports, and every port's numeral
      appears in it. */
  function PortList(ports: seq<int>): (s: string)
    ensures s == "" <==> ports == []
    ensures forall i :: 0 <= i < |ports| ==> Text.Occurs(Decimals(ports)[i], s)
  {
    var parts := Decimals(ports);
    Text.JoinContainsParts(", ", parts);
    assert |ports| > 0 ==> |parts[|ports| - 1]| > 0 by {
      if |ports| > 0 {
        assert Text.IsNumeral(parts[|ports| - 1]);
      }
    }
    Text.Join(", ", parts)
  }

  /** Every port's numeral appears in a text that embeds the port list. */
  lemma PortsNamedInContext(ports: seq<int>, before: string, after: string)
    ensures forall p :: p in ports ==> Text.Occurs(Text.IntToDecimal(p), before + PortList(ports) + after)
  {
    forall p | p in ports
      ensures Text.Occurs(Text.IntToDecimal(p), before + PortList(ports) + after)
    {
      var i :| 0 <= i < |ports| && ports[i] == p;
      assert Decimals(ports)[i] == Text.IntToDecimal(p);
      Text.OccursInContext(Text.IntToDecimal(p), before, PortList(ports), after);
    }
  }

  /** The rendered port list names every port, in order: the text of port
      `i` (which reads back as `ports[i]`) sits after the earlier ports and
      their separators. */
  lemma PortListNamesPorts(ports: seq<int>, i: nat)
    requires i < |ports|
    ensures var start := Text.Offset(", ", Decimals(ports), i);
      var end := start + |Decimals(ports)[i]|;
      end <= |PortList(ports)| && PortList(ports)[start..end] == Decimals(ports)[i]
  {
    Text.JoinLayout(", ", Decimals(ports), i);
  }

  /** The texts of the six recommendations that carry no ports, in the
      order of `Kind`. */
  const FixedTexts: seq<string> := [
    "SSL certificate expires soon - consider renewal",
    "SSL certificate has expired - critical security issue",
    "Fix SSL certificate issues - critical security vulnerability",
    "Add Content-Security-Policy header to prevent XSS attacks",
    "Enable X-Frame-Options to prevent clickjacking",
    "Add Strict-Transport-Security header for HTTPS enforcement"
  ]

  /** The recommendation text. A port recommendation names every port it
      carries. */
  function Message(advice: Advice): (s: string)
    ensures |s| > 0
    ensures advice.ClosePorts? || advice.TooManyPorts? ==>
      forall p :: p in advice.ports ==> Text.Occurs(Text.IntToDecimal(p), s)
  {
    match advice
    case ClosePorts(ports) =>
      var s := "Consider closing unnecessary ports: " + PortList(ports);
      PortsNamedInContext(ports, "Consider closing unnecessary ports: ", "");
      assert "Consider closing unnecessary ports: " + PortList(ports) + "" == s;
      s
    case TooManyPorts(ports) =>
      PortsNamedInContext(ports, "Multiple unnecessary ports open: ", " - security risk");
      "Multiple unnecessary ports open: " + PortList(ports) + " - security risk"
    case _ =>
      FixedTextEnd(advice);
      FixedTexts[Kind(advice)]
  }

  /** Each fixed text is non-empty and ends with `LastChar` of its advice. */
  lemma FixedTextEnd(advice: Advice)
    requires Kind(advice) < |FixedTexts|
    ensures var text := FixedTexts[Kind(advice)];
      |text| > 0 && text[|text| - 1] == LastChar(advice)
  {
    match advice
    case RenewSoon =>
    case CertificateExpired =>
    case FixCertificate =>
    case AddCsp =>
    case AddFrameOptions =>
    case AddHsts =>
  }

  /** Which of the eight recommendations an advice is, ignoring its ports. */
  function Kind(advice: Advice): nat {
    match advice
    case RenewSoon => 0
    case CertificateExpired => 1
    case FixCertificate => 2
    case AddCsp => 3
    case AddFrameOptions => 4
    case AddHsts => 5
    case ClosePorts(_) => 6
    case TooManyPorts(_) => 7
  }

  /** Different kinds of recommendation never read the same, whatever ports
      they carry: they end in different characters. */
  lemma MessagesDistinguishKinds(a: Advice, b: Advice)
    requires Kind(a) != Kind(b)
    ensures Message(a) != Message(b)
  {
    var ma, mb := Message(a), Message(b);
    assert |ma| > 0 && ma[|ma| - 1] == LastChar(a) by { MessageEnd(a); }
    assert |mb| > 0 && mb[|mb| - 1] == LastChar(b) by { MessageEnd(b); }
    LastCharsDiffer(a, b);
  }

  /** The character each recommendation's text ends with. A "consider
      closing" text ends with the final digit of its last port, or with the
      space after its colon when it names no port. */
  function LastChar(advice: Advice): char {
    match advice
    case RenewSoon => 'l'
    case CertificateExpired => 'e'
    case FixCertificate => 'y'
    case AddCsp => 's'
    case AddFrameOptions => 'g'
    case AddHsts => 't'
    case ClosePorts(ports) =>
      if ports == [] then ' '
      else var last := Text.IntToDecimal(ports[|ports| - 1]); last[|last| - 1]
    case TooManyPorts(_) => 'k'
  }

  /** Different kinds of recommendation end in different characters: only a
      "consider closing" text ends with a digit or a space. */
  lemma LastCharsDiffer(a: Advice, b: Advice)
    requires Kind(a) != Kind(b)
    ensures LastChar(a) != LastChar(b)
  {
    if a.ClosePorts? && a.ports != [] {
      Text.DecimalEndsWithDigit(a.ports[|a.ports| - 1]);
    }
    if b.ClosePorts? && b.ports != [] {
      Text.DecimalEndsWithDigit(b.ports[|b.ports| - 1]);
    }
  }

  /** Every recommendation's text ends with `LastChar` of its advice. */
  lemma MessageEnd(a: Advice)
    ensures |Message(a)| > 0 && Message(a)[|Message(a)| - 1] == LastChar(a)
  {
    match a
    case ClosePorts(ports) =>
      ClosePortsEnd(ports);
    case TooManyPorts(ports) =>
      TooManyPortsEnd(ports);
    case _ =>
      FixedTextEnd(a);
  }

  /** A "consider closing" text ends with the last port's final digit, or
      with a space when there are no ports. */
  lemma ClosePortsEnd(ports: seq<int>)
    ensures var m := Message(ClosePorts(ports));
      |m| > 0 && m[|m| - 1] == LastChar(ClosePorts(ports))
  {
    var prefix := "Consider closing unnecessary ports: ";
    var list := PortList(ports);
    assert Message(ClosePorts(ports)) == prefix + list;
    PortListEnd(ports);
    LastOfConcat(prefix, list);
  }

  /** The last character of a concatenation comes from its second part,
      unless that is empty. */
  lemma LastOfConcat(a: string, b: string)
    requires |a| > 0
    ensures var c := a + b; c[|c| - 1] == if |b| > 0 then b[|b| - 1] else a[|a| - 1]
  {
  }

  lemma TooManyPortsEnd(ports: seq<int>)
    ensures var m := Message(TooManyPorts(ports));
      |m| > 0 && m[|m| - 1] == 'k'
  {
    var suffix := " - security risk";
    var m := Message(TooManyPorts(ports));
    assert m == "Multiple unnecessary ports open: " + PortList(ports) + suffix;
    assert m[|m| - 1] == suffix[|suffix| - 1];
  }

  /** A non-empty port list ends with the final digit of its last port. */
  lemma PortListEnd(ports: seq<int>)
    ensures var list := PortList(ports); list != "" ==> Text.IsDigit(list[|list| - 1])
    ensures |ports| > 0 ==>
      var list := PortList(ports);
      var last := Text.IntToDecimal(ports[|ports| - 1]);
      |list| > 0 && list[|list| - 1] == last[|last| - 1]
  {
    if |ports| > 0 {
      Text.JoinedDecimalsEndWithDigit(", ", ports);
      var parts := Decimals(ports);
      assert parts[|ports| - 1] == Text.IntToDecimal(ports[|ports| - 1]);
      Text.JoinEndsWithLast(", ", parts);
    }
  }

  // ---------------------------------------------------------------- SSL

  /** Points for the certificate: 40 when valid for more than 30 days, 25
      when valid for 1 to 30 days, nothing otherwise. */
  function SslPoints(ssl: SslFinding): (points: int)
    ensures points == 40 || points == 25 || points == 0
    ensures points == 40 <==> ssl.valid && ssl.daysRemaining > 30
    ensures points == 25 <==> ssl.valid && 0 < ssl.daysRemaining <= 30
  {
    if ssl.valid then
      if ssl.daysRemaining > 30 then 40
      else if ssl.daysRemaining > 0 then 25
      else 0
    else 0
  }

  /** The SSL recommendation: at most one, chosen by the same cases. */
  function SslAdvice(ssl: SslFinding): (advice: seq<Advice>)
    ensures |advice| <= 1
    ensures advice == [] <==> ssl.valid && ssl.daysRemaining > 30
    ensures advice == [RenewSoon] <==> ssl.valid && 0 < ssl.daysRemaining <= 30
    ensures advice == [CertificateExpired] <==> ssl.valid && ssl.daysRemaining <= 0
    ensures advice == [FixCertificate] <==> !ssl.valid
  {
    if ssl.valid then
      if ssl.daysRemaining > 30 then []
      else if ssl.daysRemaining > 0 then [RenewSoon]
      else [CertificateExpired]
    else [FixCertificate]
  }

  /** Full SSL marks exactly when no SSL recommendation is made; no marks
      exactly when the recommendation is a critical one. */
  lemma SslFullMarksIffSilent(ssl: SslFinding)
    ensures SslPoints(ssl) == 40 <==> SslAdvice(ssl) == []
    ensures SslPoints(ssl) == 0 <==> SslAdvice(ssl) == [CertificateExpired] || SslAdvice(ssl) == [FixCertificate]
  {
  }

  // ------------------------------------------------------------ headers

  /** Points for headers: `round(score / 100 * 40)`. */
  function HeaderPoints(score: int): (points: int)
    ensures Rounding.IsPythonRound(points, 40 * score, 100)
    ensures 100 * points - 50 < 40 * score < 100 * points + 50
    ensures 0 <= score <= 100 ==> 0 <= points <= 40
  {
    var points := Rounding.RoundDiv(40 * score, 100);
    assert 2 * (40 * score) != 2 * 100 * points - 100 by {
      assert (4 * score) % 2 == 0;
      assert (10 * points - 5) % 2 == 1;
    }
    points
  }

  /** A higher header score never earns fewer points. */
  lemma HeaderPointsMonotone(s: int, t: int)
    requires s <= t
    ensures HeaderPoints(s) <= HeaderPoints(t)
  {
    var p, q := HeaderPoints(s), HeaderPoints(t);
    if p > q {
      Rounding.Scale(100, p - q);
    }
  }

  /** One recommendation for each of CSP, X-Frame-Options and HSTS that is
      missing, in that order; no other header draws one. */
  function HeaderAdvice(missing: seq<string>): (advice: seq<Advice>)
    ensures AddCsp in advice <==> "content-security-policy" in missing
    ensures AddFrameOptions in advice <==> "x-frame-options" in missing
    ensures AddHsts in advice <==> "strict-transport-security" in missing
    ensures IsSubseq(advice, [AddCsp, AddFrameOptions, AddHsts])
    ensures forall a :: a in advice ==> a == AddCsp || a == AddFrameOptions || a == AddHsts
  {
    var csp := if "content-security-policy" in missing then [AddCsp] else [];
    var frame := if "x-frame-options" in missing then [AddFrameOptions] else [];
    var hsts := if "strict-transport-security" in missing then [AddHsts] else [];
    assert IsSubseq(hsts, [AddHsts]);
    assert IsSubseq(frame + hsts, [AddFrameOptions, AddHsts]) by {
      assert [AddFrameOptions, AddHsts][1..] == [AddHsts];
      if frame == [] {
        assert frame + hsts == hsts;
      } else {
        assert (frame + hsts)[1..] == hsts;
      }
    }
    assert IsSubseq(csp + frame + hsts, [AddCsp, AddFrameOptions, AddHsts]) by {
      assert [AddCsp, AddFrameOptions, AddHsts][1..] == [AddFrameOptions, AddHsts];
      if csp == [] {
        assert csp + frame + hsts == frame + hsts;
      } else {
        assert (csp + frame + hsts)[1..] == frame + hsts;
      }
    }
    csp + frame + hsts
  }

  // -------------------------------------------------------------- ports

  predicate IsExpectedPort(p: int) {
    p in ExpectedPorts
  }

  /** Open ports other than 80 and 443, in the order of `open`. */
  function Unexpected(open: seq<int>): (unexpected: seq<int>)
    ensures forall p :: p in unexpected <==> p in open && p != 80 && p != 443
    ensures IsSubseq(unexpected, open)
  {
    Select(open, IsExpectedPort, false)
  }

  /** Points for ports: 20 with no unexpected open port, 10 with one or
      two, nothing with three or more. */
  function PortPoints(unexpected: seq<int>): (points: int)
    ensures points == 20 <==> |unexpected| == 0
    ensures points == 10 <==> 1 <= |unexpected| <= 2
    ensures points == 0 <==> |unexpected| >= 3
  {
    if |unexpected| == 0 then 20
    else if |unexpected| <= 2 then 10
    else 0
  }

  /** The port recommendation: none without unexpected ports, otherwise one
      naming all of them, worded by how many there are. */
  function PortAdvice(unexpected: seq<int>): (advice: seq<Advice>)
    ensures advice == [] <==> unexpected == []
    ensures 1 <= |unexpected| <= 2 ==> advice == [ClosePorts(unexpected)]
    ensures |unexpected| >= 3 ==> advice == [TooManyPorts(unexpected)]
  {
    if |unexpected| == 0 then []
    else if |unexpected| <= 2 then [ClosePorts(unexpected)]
    else [TooManyPorts(unexpected)]
  }

  /** Fewer unexpected ports never earn fewer points. */
  lemma PortPointsAntitone(u: seq<int>, v: seq<int>)
    requires |u| <= |v|
    ensures PortPoints(v) <= PortPoints(u)
  {
  }

  // -------------------------------------------------------------- tiers

  /** The tier as a step function of the score. */
  function TierOf(score: int): (level: RiskLevel)
    ensures level == LowRisk <==> score >= 80
    ensures level == MediumRisk <==> 50 <= score < 80
    ensures level == HighRisk <==> score < 50
  {
    if score >= 80 then LowRisk
    else if score >= 50 then MediumRisk
    else HighRisk
  }

  /** 0 for LOW, 1 for MEDIUM, 2 for HIGH. */
  function Severity(level: RiskLevel): nat {
    match level
    case LowRisk => 0
    case MediumRisk => 1
    case HighRisk => 2
  }

  /** A higher score never lands in a more severe tier. */
  lemma TierMonotone(s: int, t: int)
    requires s <= t
    ensures Severity(TierOf(t)) <= Severity(TierOf(s))
  {
  }

  // ---------------------------------------------------------- aggregate

  /** The group a recommendation belongs to: 0 for SSL, 1 for headers, 2 for
      ports. */
  function Category(advice: Advice): nat {
    match advice
    case RenewSoon | CertificateExpired | FixCertificate => 0
    case AddCsp | AddFrameOptions | AddHsts => 1
    case ClosePorts(_) | TooManyPorts(_) => 2
  }

  /** The assessment as the sum of three independently capped parts and the
      concatenation of their recommendations, SSL first, then headers, then
      ports. */
  function Assess(ssl: SslFinding, headers: HI.HeaderFinding, ports: PS.PortFinding): (a: RiskAssessment)
    ensures a.overallRisk == TierOf(a.securityScore)
    ensures 0 <= headers.score <= 100 ==> 0 <= a.securityScore <= 100
    ensures |a.recommendations| <= 5
  {
    var unexpected := Unexpected(ports.open);
    var score := SslPoints(ssl) + HeaderPoints(headers.score) + PortPoints(unexpected);
    SubseqLength(HeaderAdvice(headers.missing), [AddCsp, AddFrameOptions, AddHsts]);
    RiskAssessment(TierOf(score), score,
      SslAdvice(ssl) + HeaderAdvice(headers.missing) + PortAdvice(unexpected))
  }

  /** Three runs of recommendations, of groups 0, 1 and 2, concatenated in
      that order, are ordered by group. */
  lemma GroupsInOrder(first: seq<Advice>, second: seq<Advice>, third: seq<Advice>)
    requires |first| <= 1 && |third| <= 1
    requires forall a :: a in first ==> Category(a) == 0
    requires forall a :: a in second ==> Category(a) == 1
    requires forall a :: a in third ==> Category(a) == 2
    ensures var recs := first + second + third;
      forall i, j :: 0 <= i < j < |recs| ==> Category(recs[i]) <= Category(recs[j])
    ensures var recs := first + second + third;
      forall i, j :: 0 <= i < j < |recs| && Category(recs[i]) == Category(recs[j]) ==> Category(recs[i]) == 1
  {
    var recs := first + second + third;
    forall k | 0 <= k < |recs|
      ensures Category(recs[k]) == if k < |first| then 0 else if k < |first| + |second| then 1 else 2
    {
      if k < |first| {
        assert recs[k] in first;
      } else if k < |first| + |second| {
        assert recs[k] == second[k - |first|];
      } else {
        assert recs[k] == third[k - |first| - |second|];
      }
    }
  }

  /** Recommendations come grouped in evaluation order: SSL, then headers,
      then ports, never interleaved; only header entries can share a group. */
  lemma RecommendationsInEvaluationOrder(ssl: SslFinding, headers: HI.HeaderFinding, ports: PS.PortFinding)
    ensures var recs := Assess(ssl, headers, ports).recommendations;
      forall i, j :: 0 <= i < j < |recs| ==> Category(recs[i]) <= Category(recs[j])
    ensures var recs := Assess(ssl, headers, ports).recommendations;
      forall i, j :: 0 <= i < j < |recs| && Category(recs[i]) == Category(recs[j]) ==> Category(recs[i]) == 1
  {
    GroupsInOrder(SslAdvice(ssl), HeaderAdvice(headers.missing), PortAdvice(Unexpected(ports.open)));
  }

  /** The list comprehension collecting the open ports that are not
      expected, as a loop over `open`. */
  method UnexpectedPorts(open: seq<int>) returns (unexpected: seq<int>)
    ensures unexpected == Unexpected(open)
  {
    unexpected := [];
    var i := 0;
    while i < |open|
      invariant 0 <= i <= |open|
      invariant unexpected == Select(open[..i], IsExpectedPort, false)
    {
      var port := open[i];
      SelectPrefixStep(open, i, IsExpectedPort, false);
      if !IsExpectedPort(port) {
        unexpected := unexpected + [port];
      }
      i := i + 1;
    }
    assert open[..i] == open;
  }
}
