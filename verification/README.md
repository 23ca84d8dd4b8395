# Web vulnerability scanner: risk assessment model

This project models the part of the web vulnerability scanner
(`scanner/scanner.py`) that decides what a scan means. The scanner probes a
host three ways. It does a TLS handshake to read the certificate, sends an
HTTP HEAD request to see which security headers come back, and tries TCP
connects on thirteen common ports. It then folds the three findings into a
security score out of 100, a risk tier (LOW, MEDIUM or HIGH RISK) and an
ordered list of recommendations.

The probes are not modelled. Their outcomes are inputs:

- the certificate finding is `(valid, daysRemaining)`;
- the HEAD outcome is either the request's error or the status code plus the
  response's header names;
- each port's connect verdict is a function `isOpen`, and the thread pool's
  completion order is a permutation `arrival` of the port list.

Modules:

- `HeaderInspector`: the header checklist, the present/missing split of
  `check_security_headers` (case-insensitive, in checklist order), its
  percentage score, and the fail-closed result when the request fails.
- `PortScanner`: the thirteen probed ports and the result assembly of
  `scan_ports`. Verdicts arrive in any order, and the open and closed lists
  come out sorted and disjoint, covering every port.
- `RiskAggregator`: `calculate_risk_score`, as `Assess`. The score is the sum
  of three parts: the certificate (up to 40), the headers (up to 40) and the
  ports (up to 20). Recommendations are the `Advice` datatype. `Message`
  gives each one's exact text, and different kinds of recommendation never
  share a text.
- `Scan`: the three findings fed to the aggregator as `scan_url` does, plus
  end-to-end consequences and worked scenarios.
- `Seqs`, `Text`, `Rounding`: list filtering and sorting, ASCII lower-casing,
  `str` of an integer and `", ".join`. Rounding to the nearest integer is done
  in exact integer arithmetic. It rounds exact halves up, where Python's
  `round` rounds them to even, so the two agree except at exact halves. Those
  never occur for the two quotients the scanner rounds, `present / 6 * 100`
  and `score / 100 * 40`, and both are proved equal to Python's result.

Facts about `scanner/scanner.py` that the model keeps:

- thirteen ports are probed (line 28);
- one or two unexpected open ports earn 10 points and the "Consider closing"
  message, and three or more earn 0 points and the "Multiple unnecessary
  ports" message (lines 195-201);
- unexpected ports are listed in the order of the sorted open list
  (lines 122 and 193);
- a valid certificate with 0 or fewer days left draws "has expired" and 0
  points (lines 173-174).

## Model

| member | source | states |
|---|---|---|
| HeaderInspector.ChecklistIsLowerCase | scanner/scanner.py:20-27 | every checklist name is already lower case, so it can match a lower-cased response key |
| HeaderInspector.KeyIffNamed | scanner/scanner.py:64-70 | a checklist header is found exactly when some response header name equals it up to case |
| HeaderInspector.Split | scanner/scanner.py:66-73 | each checklist entry lands in exactly one of present/missing according to the dictionary; both lists keep checklist order and together are the checklist |
| HeaderInspector.Percent | scanner/scanner.py:75 | the score is Python's `round(present / 6 * 100)`, i.e. 0, 17, 33, 50, 67, 83 or 100 for 0..6 present; 0 only with nothing present, 100 only with everything present |
| HeaderInspector.Inspect | scanner/scanner.py:60-90 | present = checklist headers the response carries up to case; missing = the rest; both in checklist order; score is the rounded percentage; status code kept; a failed request gives everything missing, nothing present, score 0 and the error |
| HeaderInspector.NamesMatchIgnoringCase | scanner/scanner.py:64 | responses whose header names differ only in letter case give the same finding |
| HeaderInspector.FailureIsWorstCase | scanner/scanner.py:84-90 | a failed request scores no higher than any response, and no header is present for it that is missing for a response |
| PortScanner.CommonPortsDistinct | scanner/scanner.py:28 | the thirteen probed ports contain no repeats |
| PortScanner.Partition | scanner/scanner.py:111-125 | open and closed are strictly ascending; a port is open-listed exactly when probed and open, closed-listed exactly when probed and not open; total equals the probe count and the lists' combined length |
| PortScanner.Findings | scanner/scanner.py:100-125 | the port finding over the thirteen probed ports: sorted, disjoint, covering them all, total 13 |
| PortScanner.OpenPortsDetermined | scanner/scanner.py:121-123 | the open list is the unique ascending list of the probed ports found open |
| PortScanner.ArrivalOrderIrrelevant | scanner/scanner.py:111-123 | sorting the ports collected in any completion order gives the same list |
| PortScanner.Collect | scanner/scanner.py:111-125 | appending verdicts as they complete, in any order, then sorting, yields the partition |
| PortScanner.ScanPorts | scanner/scanner.py:100-125 | the result of the scan does not depend on the order in which the connects complete |
| RiskAggregator.SslPoints | scanner/scanner.py:166-176 | 40 points exactly for a valid certificate with more than 30 days left, 25 exactly for a valid one with 1 to 30 days, otherwise 0 |
| RiskAggregator.SslAdvice | scanner/scanner.py:166-176 | at most one certificate recommendation: none, renew soon, has expired or fix, each for exactly its case |
| RiskAggregator.SslFullMarksIffSilent | scanner/scanner.py:166-176 | full certificate marks exactly when no certificate recommendation is made; none exactly when the recommendation is a critical one |
| RiskAggregator.HeaderPoints | scanner/scanner.py:179-180 | header points are Python's `round(score / 100 * 40)` (never a tie), within 0..40 for a score within 0..100 |
| RiskAggregator.HeaderPointsMonotone | scanner/scanner.py:179-180 | a higher header score never earns fewer points |
| RiskAggregator.HeaderAdvice | scanner/scanner.py:182-188 | one recommendation each for a missing CSP, X-Frame-Options and HSTS header, exactly when missing, in that order; no other header draws one |
| RiskAggregator.Unexpected | scanner/scanner.py:191-193 | unexpected ports are the open ports other than 80 and 443, in the order of the open list |
| RiskAggregator.UnexpectedPorts | scanner/scanner.py:193 | the list comprehension, as a loop, yields exactly the unexpected ports |
| RiskAggregator.PortPoints | scanner/scanner.py:195-200 | 20 points exactly with no unexpected port, 10 exactly with one or two, 0 exactly with three or more |
| RiskAggregator.PortAdvice | scanner/scanner.py:195-201 | no port recommendation exactly when nothing is unexpected; "consider closing" for one or two, "multiple unnecessary" for three or more, each carrying all unexpected ports |
| RiskAggregator.PortPointsAntitone | scanner/scanner.py:195-200 | fewer unexpected ports never earn fewer points |
| RiskAggregator.Decimals | scanner/scanner.py:199 | each port's text is a numeral that reads back as that port, starts with '-' exactly for a negative port and has no leading zero |
| RiskAggregator.PortList | scanner/scanner.py:199-201 | the comma-separated port list is empty exactly when there are no ports, and every port's numeral appears in it |
| RiskAggregator.PortListEnd | scanner/scanner.py:199-201 | a non-empty port list ends with a digit, namely the final character of its last port's numeral |
| RiskAggregator.Message | scanner/scanner.py:172-201 | every recommendation text is non-empty, and a port recommendation's text contains the numeral of every port it carries |
| RiskAggregator.MessagesDistinguishKinds | scanner/scanner.py:172-201 | two different kinds of recommendation never produce the same text, whatever ports they carry |
| RiskAggregator.MessageEnd | scanner/scanner.py:172-201 | every recommendation text ends with the character `LastChar` gives its advice: a letter per fixed text, 'k' for "security risk", and for "consider closing" the last port's final digit, or a space when it names no port |
| RiskAggregator.ClosePortsEnd | scanner/scanner.py:198-199 | a "consider closing" text ends with its last port's final digit, or with a space when it names no port |
| RiskAggregator.FixedTextEnd | scanner/scanner.py:172-188 | each of the six fixed recommendation texts is non-empty and ends with its own letter |
| RiskAggregator.LastCharsDiffer | scanner/scanner.py:172-201 | recommendations of different kinds end with different characters |
| RiskAggregator.PortListNamesPorts | scanner/scanner.py:199-201 | the comma-separated port list holds each port's numeral at its position, after the earlier ports and separators |
| RiskAggregator.TierOf | scanner/scanner.py:203-209 | LOW RISK exactly at 80 and above, MEDIUM RISK exactly from 50 to 79, HIGH RISK exactly below 50 |
| RiskAggregator.TierMonotone | scanner/scanner.py:203-209 | a higher score never lands in a more severe tier |
| RiskAggregator.Label | scanner/scanner.py:204-209 | each tier is reported as exactly its own label: LOW RISK, MEDIUM RISK or HIGH RISK |
| RiskAggregator.LabelInjective | scanner/scanner.py:204-209 | distinct tiers have distinct labels |
| RiskAggregator.Assess | scanner/scanner.py:161-215 | the tier is the step function of the score; the score is within 0..100 whenever the header score is; at most five recommendations |
| RiskAggregator.GroupsInOrder | scanner/scanner.py:164-201 | one certificate run, then header runs, then one port run, concatenated, are ordered by group |
| RiskAggregator.RecommendationsInEvaluationOrder | scanner/scanner.py:164-201 | recommendations appear as certificate, then headers, then ports, never interleaved; only header entries share a group |
| Scan.Report | scanner/scanner.py:230-248 | the reported score is within 0..100 and is certificate points plus the header points for the number of present headers plus port points |
| Scan.PointsByPresent | scanner/scanner.py:179-180 | 0..6 present headers earn 0, 7, 13, 20, 27, 33 and 40 header points |
| Scan.PointsTable | scanner/scanner.py:180 | header scores 0, 17, 33, 50, 67, 83 and 100 round to 0, 7, 13, 20, 27, 33 and 40 points |
| Scan.InspectedHeaderPoints | scanner/scanner.py:179-180 | an inspected response earns the header points for its count of present headers |
| Scan.FullHeaderPointsMeansNothingMissing | scanner/scanner.py:179-188 | all 40 header points only when no checklist header is missing |
| Scan.PerfectAssessmentNeedsNoAdvice | scanner/scanner.py:161-215 | full marks in every part means no recommendation |
| Scan.PerfectScoreNeedsNoAdvice | scanner/scanner.py:161-215 | a scan scoring 100 reports no recommendations |
| Scan.FailedFetchIsWorstCase | scanner/scanner.py:84-90 | a failed HEAD request never yields a higher score than any response, and draws all three header recommendations |
| Scan.TenDayCertificate | scanner/scanner.py:170-172 | a valid certificate with 10 days left earns 25 points and puts the renewal recommendation first |
| Scan.WebServerPorts | scanner/scanner.py:28 | of the probed ports, exactly 80, 443 and 8080 are open on a server listening on those |
| Scan.WebServerFinding | scanner/scanner.py:111-123 | such a server's open list is [80, 443, 8080] |
| Scan.WebServerAdvice | scanner/scanner.py:191-199 | of those only 8080 is unexpected: 10 points and one "consider closing" recommendation naming it |
| Scan.WebServerMessage | scanner/scanner.py:199 | that recommendation reads "Consider closing unnecessary ports: 8080" |
| Text.Lower | scanner/scanner.py:64 | lower-casing keeps the length, turns each upper-case ASCII letter into its lower-case partner and keeps every other character |
| Text.IntToDecimal | scanner/scanner.py:199 | `str` of an integer is a numeral, starts with '-' exactly when the integer is negative, and has no leading zero after the sign unless it is "0" |
| Text.IntDecimalUnique | scanner/scanner.py:199 | the only numeral that reads back as an integer, is signed exactly when it is negative and has no leading zero is `str` of that integer |
| Text.NatDecimalUnique | scanner/scanner.py:199 | the only digit string without a leading zero that reads back as a natural number is its decimal rendering |
| Text.DecimalEndsWithDigit | scanner/scanner.py:199 | `str` of an integer ends with a digit |
| Text.IntDecimalRoundTrip | scanner/scanner.py:199 | `str` of an integer reads back as that integer |
| Text.Join | scanner/scanner.py:199 | joining no parts gives the empty text; otherwise the length is the last part's offset plus its length |
| Text.JoinContainsParts | scanner/scanner.py:199 | every part appears in the joined text |
| Text.JoinEndsWithLast | scanner/scanner.py:199 | the joined text ends with the last character of the last part |
| Text.JoinLayout | scanner/scanner.py:199 | the joined text is the parts in order with one separator between neighbours |
| Rounding.RoundDiv | scanner/scanner.py:75 | the quotient rounded to nearest, equal to Python's `round` whenever the quotient is not exactly halfway |
| Rounding.NearestUnique | scanner/scanner.py:75 | only one integer lies within half a unit of a quotient that is not halfway |
| Seqs.Select | scanner/scanner.py:193 | filtering keeps exactly the elements that pass, in their original order |
| Seqs.Sort | scanner/scanner.py:122-123 | `sorted` returns an ascending permutation of its input |
| Seqs.SortedUnique | scanner/scanner.py:122-123 | two sorted permutations of the same multiset are equal |

## Left out

- The TLS probe (`check_ssl_certificate`): it is reduced to its result, a validity flag and a day count. The issuer, subject, expiry text and error text do not affect the assessment.
- The HTTP HEAD request: redirects, timeouts and header values are not modelled. Only the status code or error text, and the header names, are inputs.
- The TCP connects (`scan_port`) and the thread pool: they become the verdict function and the completion order. An exception raised while reading a result (the inner `except`) counts as closed, the same as a closed verdict.
- `nmap_scan`, URL parsing, the timestamp, progress printing and `main`: they are I/O, outside the assessment.
- Floating point: `round(x / y * 100)` and `round(s / 100 * 40)` are computed exactly on rationals. Near the few exact values involved a float can be off by one ulp, which does not change any rounded result here.
- Text.Lower: lower-cases ASCII letters only, because Python's Unicode `lower` cannot make a non-ASCII name equal to any checklist entry.
- `.get` defaults in `calculate_risk_score`: the findings always carry the fields they are read from, so the defaults are never used.
