/** The scan as the aggregator sees it: the three probe outcomes turned into
    findings and assessed. The probes themselves (TLS handshake, HEAD
    request, connects) are inputs. */
module Scan {
  import HI = HeaderInspector
  import PS = PortScanner
  import opened RiskAggregator

  /** The header points an inspected response can earn, by number of
      checklist headers present. */
  const HeaderPointsByPresent: seq<int> := [0, 7, 13, 20, 27, 33, 40]

  /** The assessment `scan_url` reports for given probe outcomes. */
  function Report(ssl: SslFinding, response: HI.HeadResponse, isOpen: int -> bool): (a: RiskAssessment)
    ensures 0 <= a.securityScore <= 100
    ensures a.securityScore ==
      SslPoints(ssl)
      + HeaderPointsByPresent[|HI.Inspect(response).present|]
      + PortPoints(Unexpected(PS.Findings(isOpen).open))
  {
    InspectedHeaderPoints(response);
    Assess(ssl, HI.Inspect(response), PS.Findings(isOpen))
  }

  /** An inspected response earns one of seven header point values, fixed by
      how many checklist headers it carries. */
  lemma InspectedHeaderPoints(response: HI.HeadResponse)
    ensures |HI.Inspect(response).present| < |HeaderPointsByPresent|
    ensures HeaderPoints(HI.Inspect(response).score) == HeaderPointsByPresent[|HI.Inspect(response).present|]
  {
    PointsByPresent(|HI.Inspect(response).present|);
  }

  /** The header points for each possible count of present headers. */
  lemma PointsByPresent(present: nat)
    requires present < |HI.PercentByPresent|
    ensures HeaderPoints(HI.PercentByPresent[present]) == HeaderPointsByPresent[present]
  {
    PointsTable();
    if present == 0 {
    } else if present == 1 {
    } else if present == 2 {
    } else if present == 3 {
    } else if present == 4 {
    } else if present == 5 {
    } else {
      assert present == 6;
    }
  }

  /** The header points for the seven percentages a response can score. */
  lemma PointsTable()
    ensures HeaderPoints(0) == 0 && HeaderPoints(17) == 7 && HeaderPoints(33) == 13
    ensures HeaderPoints(50) == 20 && HeaderPoints(67) == 27
    ensures HeaderPoints(83) == 33 && HeaderPoints(100) == 40
  {
  }

  /** A perfect score leaves nothing to recommend. */
  lemma PerfectScoreNeedsNoAdvice(ssl: SslFinding, response: HI.HeadResponse, isOpen: int -> bool)
    requires Report(ssl, response, isOpen).securityScore == 100
    ensures Report(ssl, response, isOpen).recommendations == []
  {
    FullHeaderPointsMeansNothingMissing(response);
    PerfectAssessmentNeedsNoAdvice(ssl, HI.Inspect(response), PS.Findings(isOpen));
  }

  /** The header part earns all 40 points only when no checklist header is
      missing. */
  lemma FullHeaderPointsMeansNothingMissing(response: HI.HeadResponse)
    ensures HeaderPoints(HI.Inspect(response).score) == 40 ==> HI.Inspect(response).missing == []
  {
    var f := HI.Inspect(response);
    InspectedHeaderPoints(response);
    OnlyAllPresentEarnsFull(|f.present|);
  }

  lemma OnlyAllPresentEarnsFull(present: nat)
    requires present < |HeaderPointsByPresent|
    ensures HeaderPointsByPresent[present] == 40 ==> present == |HI.SecurityHeaders|
  {
  }

  /** Full marks in every part means no part has anything to recommend. */
  lemma PerfectAssessmentNeedsNoAdvice(ssl: SslFinding, headers: HI.HeaderFinding, ports: PS.PortFinding)
    requires 0 <= headers.score <= 100
    requires HeaderPoints(headers.score) == 40 ==> headers.missing == []
    requires Assess(ssl, headers, ports).securityScore == 100
    ensures Assess(ssl, headers, ports).recommendations == []
  {
    SslFullMarksIffSilent(ssl);
  }

  /** Fail-closed: a failed HEAD request never scores better than any
      response would, and draws all three header recommendations. */
  lemma FailedFetchIsWorstCase(ssl: SslFinding, error: string, response: HI.HeadResponse, isOpen: int -> bool)
    ensures Report(ssl, HI.RequestFailed(error), isOpen).securityScore <= Report(ssl, response, isOpen).securityScore
    ensures var recs := Report(ssl, HI.RequestFailed(error), isOpen).recommendations;
      AddCsp in recs && AddFrameOptions in recs && AddHsts in recs
  {
    InspectedHeaderPoints(response);
    InspectedHeaderPoints(HI.RequestFailed(error));
    var recs := Report(ssl, HI.RequestFailed(error), isOpen).recommendations;
    var header := HeaderAdvice(HI.SecurityHeaders);
    assert recs == SslAdvice(ssl) + header + PortAdvice(Unexpected(PS.Findings(isOpen).open));
    assert AddCsp in header && AddFrameOptions in header && AddHsts in header;
  }

  /** A valid certificate with ten days left earns 25 points and puts the
      renewal recommendation first. */
  lemma TenDayCertificate(headers: HI.HeaderFinding, ports: PS.PortFinding)
    ensures SslPoints(SslFinding(true, 10)) == 25
    ensures Assess(SslFinding(true, 10), headers, ports).recommendations[0] == RenewSoon
  {
  }

  /** The verdicts of a server listening on 80, 443 and 8080 only. */
  predicate WebServerOpen(port: int) {
    port == 80 || port == 443 || port == 8080
  }

  /** Such a server's finding lists exactly those three ports as open. */
  lemma WebServerFinding(isOpen: int -> bool)
    requires forall port :: isOpen(port) == WebServerOpen(port)
    ensures PS.Findings(isOpen).open == [80, 443, 8080]
  {
    forall p
      ensures p in [80, 443, 8080] <==> p in PS.CommonPorts && isOpen(p)
    {
      WebServerPorts(p);
    }
    PS.OpenPortsDetermined(isOpen, [80, 443, 8080]);
  }

  /** Which probed ports such a server has open. */
  lemma WebServerPorts(port: int)
    ensures port in PS.CommonPorts && WebServerOpen(port) <==> port in [80, 443, 8080]
  {
    if WebServerOpen(port) {
      assert port in PS.CommonPorts;
    }
  }

  /** Of those, only 8080 is unexpected, which costs 10 points and draws
      one recommendation naming it. */
  lemma WebServerAdvice()
    ensures Unexpected([80, 443, 8080]) == [8080]
    ensures PortPoints([8080]) == 10
    ensures PortAdvice([8080]) == [ClosePorts([8080])]
  {
    assert !IsExpectedPort(8080);
  }

  /** The recommendation's text names the port. */
  lemma WebServerMessage()
    ensures Message(ClosePorts([8080])) == "Consider closing unnecessary ports: 8080"
  {
    assert Text.IntToDecimal(8080) == "8080";
  }
}
