/** The scan gate run after a dynamic security scan: it counts the alerts of
    the scan report by severity and turns the counts into the exit status of
    the build step.

    The XML report is given already parsed: a sequence of sites, each with a
    sequence of alert items, each with an optional `riskdesc` element whose
    text may be missing. A report that cannot be read or parsed at all is
    `Malformed`. */
module ZapHook {
  import opened Wrappers
  import opened Text

  /** A `riskdesc` element; `text` is None when the element has no text. */
  datatype RiskDesc = RiskDesc(text: Option<string>)

  /** An `alertitem` element and its `riskdesc` child, if it has one. */
  datatype AlertItem = AlertItem(riskdesc: Option<RiskDesc>)

  datatype Site = Site(alerts: seq<AlertItem>)

  datatype Report = Malformed | Parsed(sites: seq<Site>)

  /** The four severity buckets of the count dictionary. */
  datatype Counts = Counts(high: nat, medium: nat, low: nat, informational: nat)

  /** The dictionary the parse starts from: every bucket at zero. */
  const NoAlerts := Counts(0, 0, 0, 0)

  function Total(c: Counts): nat {
    c.high + c.medium + c.low + c.informational
  }

  function Plus(a: Counts, b: Counts): Counts {
    Counts(a.high + b.high, a.medium + b.medium, a.low + b.low, a.informational + b.informational)
  }

  /** One of the dictionary's keys; the comparison is case-sensitive. */
  predicate IsBucket(tok: string) {
    tok == "High" || tok == "Medium" || tok == "Low" || tok == "Informational"
  }

  /** What reading an item's risk level yields: no `riskdesc` child, the
      first whitespace-separated word of its text, or an exception (the text
      is missing, so `.split` fails; or it is blank, so `[0]` fails). */
  datatype Risk = NoRisk | Word(word: string) | Raises

  function RiskOf(item: AlertItem): (r: Risk)
    ensures r.NoRisk? <==> item.riskdesc.None?
    ensures r.Word? <==>
      item.riskdesc.Some? && item.riskdesc.value.text.Some? && !AllSpace(item.riskdesc.value.text.value)
    ensures r.Raises? <==> item.riskdesc.Some? && (item.riskdesc.value.text.None? || AllSpace(item.riskdesc.value.text.value))
    ensures r.Word? ==>
      && item.riskdesc.Some? && item.riskdesc.value.text.Some?
      && FirstToken(item.riskdesc.value.text.value) == Some(r.word)
  {
    match item.riskdesc
    case None => NoRisk
    case Some(rd) =>
      match rd.text
      case None => Raises
      case Some(t) =>
        match FirstToken(t)
        case None => Raises
        case Some(w) => Word(w)
  }

  /** `alerts[risk_level] += 1` when the level is a key of the dictionary. */
  function Bump(c: Counts, tok: string): (r: Counts)
    ensures IsBucket(tok) ==> Total(r) == Total(c) + 1
    ensures !IsBucket(tok) ==> r == c
    ensures r.high == c.high + (if tok == "High" then 1 else 0)
    ensures r.medium == c.medium + (if tok == "Medium" then 1 else 0)
    ensures r.low == c.low + (if tok == "Low" then 1 else 0)
    ensures r.informational == c.informational + (if tok == "Informational" then 1 else 0)
  {
    if tok == "High" then c.(high := c.high + 1)
    else if tok == "Medium" then c.(medium := c.medium + 1)
    else if tok == "Low" then c.(low := c.low + 1)
    else if tok == "Informational" then c.(informational := c.informational + 1)
    else c
  }

  /** The inner loop over one site's alert items; None once an item raises. */
  function CountAlerts(c: Counts, alerts: seq<AlertItem>): Option<Counts>
    decreases |alerts|
  {
    if alerts == [] then Some(c)
    else
      match RiskOf(alerts[0])
      case Raises => None
      case NoRisk => CountAlerts(c, alerts[1..])
      case Word(w) => CountAlerts(Bump(c, w), alerts[1..])
  }

  /** The outer loop over the sites; None once an item raises. */
  function CountSites(c: Counts, sites: seq<Site>): Option<Counts>
    decreases |sites|
  {
    if sites == [] then Some(c)
    else
      match CountAlerts(c, sites[0].alerts)
      case None => None
      case Some(c') => CountSites(c', sites[1..])
  }

  /** `parse_zap_xml`: the severity counts, or None when anything inside the
      `try` raised. */
  function ParseZapXml(report: Report): Option<Counts> {
    match report
    case Malformed => None
    case Parsed(sites) => CountSites(NoAlerts, sites)
  }

  // ---------------------------------------------------------------------------
  // Reference counts over the flattened report
  // ---------------------------------------------------------------------------

  /** Every alert item of the report, site by site. */
  function AllAlerts(sites: seq<Site>): seq<AlertItem>
    decreases |sites|
  {
    if sites == [] then [] else sites[0].alerts + AllAlerts(sites[1..])
  }

  /** Number of items whose risk level is the word `name`. */
  function Occurrences(alerts: seq<AlertItem>, name: string): nat
    decreases |alerts|
  {
    if alerts == [] then 0
    else (if RiskOf(alerts[0]) == Word(name) then 1 else 0) + Occurrences(alerts[1..], name)
  }

  /** Number of items whose risk level is one of the four bucket names. */
  function Recognised(alerts: seq<AlertItem>): nat
    decreases |alerts|
  {
    if alerts == [] then 0
    else (if RiskOf(alerts[0]).Word? && IsBucket(RiskOf(alerts[0]).word) then 1 else 0) + Recognised(alerts[1..])
  }

  function Tally(alerts: seq<AlertItem>): Counts {
    Counts(Occurrences(alerts, "High"), Occurrences(alerts, "Medium"),
           Occurrences(alerts, "Low"), Occurrences(alerts, "Informational"))
  }

  ghost predicate SomeItemRaises(alerts: seq<AlertItem>) {
    exists i :: 0 <= i < |alerts| && RiskOf(alerts[i]).Raises?
  }

  lemma {:induction false} TallyTotal(alerts: seq<AlertItem>)
    ensures Total(Tally(alerts)) == Recognised(alerts)
    decreases |alerts|
  {
    if alerts != [] {
      TallyTotal(alerts[1..]);
    }
  }

  lemma {:induction false} OccurrencesAppend(a: seq<AlertItem>, b: seq<AlertItem>, name: string)
    ensures Occurrences(a + b, name) == Occurrences(a, name) + Occurrences(b, name)
    decreases |a|
  {
    if a == [] {
      assert a + b == b;
    } else {
      assert (a + b)[0] == a[0];
      assert (a + b)[1..] == a[1..] + b;
      OccurrencesAppend(a[1..], b, name);
    }
  }

  lemma TallyAppend(a: seq<AlertItem>, b: seq<AlertItem>)
    ensures Tally(a + b) == Plus(Tally(a), Tally(b))
    ensures SomeItemRaises(a + b) <==> SomeItemRaises(a) || SomeItemRaises(b)
  {
    OccurrencesAppend(a, b, "High");
    OccurrencesAppend(a, b, "Medium");
    OccurrencesAppend(a, b, "Low");
    OccurrencesAppend(a, b, "Informational");
    RaisesAppend(a, b);
  }

  lemma RaisesAppend(a: seq<AlertItem>, b: seq<AlertItem>)
    ensures SomeItemRaises(a + b) <==> SomeItemRaises(a) || SomeItemRaises(b)
  {
    if i :| 0 <= i < |a + b| && RiskOf((a + b)[i]).Raises? {
      if i < |a| {
        assert (a + b)[i] == a[i];
      } else {
        assert (a + b)[i] == b[i - |a|];
      }
    }
    if i :| 0 <= i < |a| && RiskOf(a[i]).Raises? {
      assert (a + b)[i] == a[i];
    }
    if i :| 0 <= i < |b| && RiskOf(b[i]).Raises? {
      assert (a + b)[|a| + i] == b[i];
    }
  }

  /** The inner loop adds the item counts to its starting tally, or fails
      exactly when some item raises. */
  lemma {:induction false} CountAlertsCorrect(c: Counts, alerts: seq<AlertItem>)
    ensures CountAlerts(c, alerts).None? <==> SomeItemRaises(alerts)
    ensures CountAlerts(c, alerts).Some? ==> CountAlerts(c, alerts).value == Plus(c, Tally(alerts))
    decreases |alerts|
  {
    if alerts != [] {
      var rest := alerts[1..];
      match RiskOf(alerts[0])
      case Raises =>
      case NoRisk =>
        CountAlertsCorrect(c, rest);
        SomeItemRaisesTail(alerts);
      case Word(w) =>
        CountAlertsCorrect(Bump(c, w), rest);
        SomeItemRaisesTail(alerts);
    }
  }

  lemma SomeItemRaisesTail(alerts: seq<AlertItem>)
    requires alerts != [] && !RiskOf(alerts[0]).Raises?
    ensures SomeItemRaises(alerts) <==> SomeItemRaises(alerts[1..])
  {
  }

  lemma {:induction false} CountSitesCorrect(c: Counts, sites: seq<Site>)
    ensures CountSites(c, sites).None? <==> SomeItemRaises(AllAlerts(sites))
    ensures CountSites(c, sites).Some? ==> CountSites(c, sites).value == Plus(c, Tally(AllAlerts(sites)))
    decreases |sites|
  {
    if sites == [] {
      assert Tally([]) == NoAlerts;
    } else {
      CountAlertsCorrect(c, sites[0].alerts);
      TallyAppend(sites[0].alerts, AllAlerts(sites[1..]));
      match CountAlerts(c, sites[0].alerts)
      case None =>
      case Some(c') =>
        CountSitesCorrect(c', sites[1..]);
    }
  }

  /** The parse, against the reference counts: it fails exactly when the
      report is malformed or some item's risk level raises; otherwise each
      bucket holds the number of items whose first word is that bucket's
      name, and the four buckets together hold every recognised item. */
  lemma {:induction false} ParseZapXmlCorrect(report: Report)
    ensures ParseZapXml(report).None? <==> report.Malformed? || SomeItemRaises(AllAlerts(report.sites))
    ensures ParseZapXml(report).Some? ==>
      && ParseZapXml(report).value == Tally(AllAlerts(report.sites))
      && Total(ParseZapXml(report).value) == Recognised(AllAlerts(report.sites))
  {
    if report.Parsed? {
      var all := AllAlerts(report.sites);
      CountSitesCorrect(NoAlerts, report.sites);
      TallyTotal(all);
      PlusNoAlerts(Tally(all));
    }
  }

  lemma PlusNoAlerts(c: Counts)
    ensures Plus(NoAlerts, c) == c
  {
  }

  // ---------------------------------------------------------------------------
  // Exit decision
  // ---------------------------------------------------------------------------

  /** The outcome `main` reports. */
  datatype Verdict = ParseFailed | HighAlerts | PassedWithWarnings | Passed

  /** The threshold of `main`: only High alerts fail the build, Medium
      alerts only warn, and Low and Informational alerts are never consulted. */
  function Decide(parsed: Option<Counts>): (v: Verdict)
    ensures parsed.None? <==> v == ParseFailed
    ensures parsed.Some? ==> (v == HighAlerts <==> parsed.value.high > 0)
    ensures parsed.Some? ==> (v == PassedWithWarnings <==> parsed.value.high == 0 && parsed.value.medium > 0)
    ensures parsed.Some? ==> (v == Passed <==> parsed.value.high == 0 && parsed.value.medium == 0)
  {
    match parsed
    case None => ParseFailed
    case Some(c) =>
      if c.high > 0 then HighAlerts
      else if c.medium > 0 then PassedWithWarnings
      else Passed
  }

  function ExitStatus(v: Verdict): int {
    if v == ParseFailed || v == HighAlerts then 1 else 0
  }

  /** The exit status of the whole script for a given report. */
  function Gate(report: Report): (code: int)
    ensures code == 0 || code == 1
    ensures code == 1 <==> ParseZapXml(report).None? || ParseZapXml(report).value.high > 0
  {
    ExitStatus(Decide(ParseZapXml(report)))
  }

  /** Low and Informational counts never change the verdict. */
  lemma LowAndInformationalIgnored(c: Counts, low: nat, informational: nat)
    ensures Decide(Some(c)) == Decide(Some(c.(low := low, informational := informational)))
  {
  }

  /** End to end: the build fails exactly when the report is malformed, some
      alert's risk level cannot be read, or some alert's risk level is High. */
  lemma GateFailsIff(report: Report)
    ensures Gate(report) == 1 <==>
      || report.Malformed?
      || SomeItemRaises(AllAlerts(report.sites))
      || Occurrences(AllAlerts(report.sites), "High") > 0
  {
    ParseZapXmlCorrect(report);
  }

  /** The three decision scenarios: one High alert fails; no High but two
      Medium alerts passes with a warning; neither passes cleanly. */
  lemma DecisionScenarios(low: nat, informational: nat)
    ensures Decide(Some(Counts(1, 0, low, informational))) == HighAlerts
    ensures ExitStatus(Decide(Some(Counts(1, 0, low, informational)))) == 1
    ensures Decide(Some(Counts(0, 2, low, informational))) == PassedWithWarnings
    ensures ExitStatus(Decide(Some(Counts(0, 2, low, informational)))) == 0
    ensures Decide(Some(Counts(0, 0, low, informational))) == Passed
    ensures ExitStatus(Decide(Some(Counts(0, 0, low, informational)))) == 0
  {
  }
}
