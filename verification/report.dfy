/** The decision logic of `list_certificates` once the certificate service
    has answered: build one row per certificate, decide whether to alert,
    and say what is printed, mailed and logged. The service call, the mail
    transport and the console grid are outside the model; the service's
    answer and the clock are parameters. The script reads the clock afresh
    for every certificate, so the clock is a function: `clock(i)` is the
    reading, in microseconds since the epoch, taken while certificate `i`
    is evaluated. */
module Report {
  import opened Results
  import opened Timestamp
  import opened Countdown
  import opened Label
  import opened HtmlTable

  /** An alert is due when some certificate has at most this many days left. */
  const AlertThresholdDays := 60

  /** One entry of the `Certificates` list; a key may be absent. */
  datatype Certificate = Certificate(domain: Option<string>, certEndTime: Option<string>)

  /** An exception raised while the rows are evaluated; the catch-all
      handler logs it and ends the run. */
  datatype EvalError =
    | MissingKey(key: string)         // `KeyError` on a certificate entry
    | BadTimestamp(cause: ParseError)  // `ValueError` from `strptime`
    | BadLabel(text: string)           // `ValueError` from `int` on a countdown label

  /** A certificate the loop can turn into a row. */
  predicate Evaluable(c: Certificate) {
    c.certEndTime.Some? && Strptime(c.certEndTime.value).Ok? && c.domain.Some?
  }

  /** The countdown of an evaluable certificate. */
  function DaysLeft(c: Certificate, now: int): int
    requires Evaluable(c)
  {
    CalculateCountdown(c.certEndTime.value, now).value
  }

  /** One pass of the loop: read `CertEndTime`, compute its countdown, read
      `Domain`, in that order, and make the row
      `[Domain, CertEndTime unchanged, f"{countdown}天"]`. */
  function EvaluateOne(c: Certificate, now: int): (r: Result<Row, EvalError>)
    ensures r.Ok? <==> Evaluable(c)
    ensures r.Ok? ==> && r.value.domain == c.domain.value
                      && r.value.endTime == c.certEndTime.value
                      && r.value.countdown == CountdownLabel(DaysLeft(c, now))
                      && LabelDays(r.value.countdown) == Some(DaysLeft(c, now))
    ensures c.certEndTime.None? ==> r == Err(MissingKey("CertEndTime"))
    ensures c.certEndTime.Some? && Strptime(c.certEndTime.value).Err? ==>
              r == Err(BadTimestamp(Strptime(c.certEndTime.value).error))
    ensures c.certEndTime.Some? && Strptime(c.certEndTime.value).Ok? && c.domain.None? ==>
              r == Err(MissingKey("Domain"))
  {
    match c.certEndTime
    case None => Err(MissingKey("CertEndTime"))
    case Some(endTime) =>
      match CalculateCountdown(endTime, now)
      case Err(e) => Err(BadTimestamp(e))
      case Ok(n) =>
        match c.domain
        case None => Err(MissingKey("Domain"))
        case Some(domain) =>
          LabelRoundTrip(n);
          Ok(Row(domain, endTime, CountdownLabel(n)))
  }

  /** The loop over the certificate list: one row per certificate, in the
      order the service listed them; the first certificate that cannot be
      evaluated aborts the loop with its error and no rows at all. */
  function BuildRows(certs: seq<Certificate>, clock: nat -> int): (r: Result<seq<Row>, EvalError>)
    ensures r.Ok? <==> forall i :: 0 <= i < |certs| ==> Evaluable(certs[i])
    ensures r.Ok? ==> |r.value| == |certs|
                      && forall i :: 0 <= i < |certs| ==> Ok(r.value[i]) == EvaluateOne(certs[i], clock(i))
    ensures r.Err? ==> exists i :: && 0 <= i < |certs|
                                   && (forall j :: 0 <= j < i ==> Evaluable(certs[j]))
                                   && Err(r.error) == EvaluateOne(certs[i], clock(i))
  {
    EvaluateReadings(certs, clock);
    Traverse(Readings(certs, clock), Evaluate)
  }

  lemma EvaluateReadings(certs: seq<Certificate>, clock: nat -> int)
    ensures forall i :: 0 <= i < |certs| ==> Evaluate(Readings(certs, clock)[i]) == EvaluateOne(certs[i], clock(i))
    ensures forall i :: 0 <= i < |certs| ==> (Evaluate(Readings(certs, clock)[i]).Ok? <==> Evaluable(certs[i]))
  {
  }

  /** Each certificate paired with the clock reading taken for it. */
  function Readings(certs: seq<Certificate>, clock: nat -> int): (ps: seq<(Certificate, int)>)
    ensures |ps| == |certs| && forall i :: 0 <= i < |certs| ==> ps[i] == (certs[i], clock(i))
  {
    seq(|certs|, i requires 0 <= i < |certs| => (certs[i], clock(i)))
  }

  /** One pass of the loop on a certificate and its clock reading. */
  function Evaluate(p: (Certificate, int)): Result<Row, EvalError> {
    EvaluateOne(p.0, p.1)
  }

  /** `any(int(row[2].replace('天', '')) <= 60 for row in rows)`, evaluated
      left to right and stopping at the first row that is due. */
  function AnyDue(rows: seq<Row>): (r: Result<bool, EvalError>)
    ensures r == Ok(true) ==>
              exists i :: 0 <= i < |rows| && LabelDays(rows[i].countdown).Some?
                                          && LabelDays(rows[i].countdown).value <= AlertThresholdDays
    ensures r == Ok(false) ==>
              forall i :: 0 <= i < |rows| ==> LabelDays(rows[i].countdown).Some?
                                               && LabelDays(rows[i].countdown).value > AlertThresholdDays
    ensures r.Err? ==>
              exists i :: && 0 <= i < |rows| && LabelDays(rows[i].countdown).None?
                          && r.error == BadLabel(rows[i].countdown)
  {
    if |rows| == 0 then Ok(false)
    else
      match LabelDays(rows[0].countdown)
      case None => Err(BadLabel(rows[0].countdown))
      case Some(n) => if n <= AlertThresholdDays then Ok(true) else AnyDue(rows[1..])
  }

  /** On rows whose labels read back as `days`, the alert test is the
      question "is some countdown at most 60": a single such row is
      enough, and the test never fails. */
  lemma {:induction false} AlertIffSomeDue(rows: seq<Row>, days: seq<int>)
    requires |rows| == |days|
    requires forall i :: 0 <= i < |rows| ==> LabelDays(rows[i].countdown) == Some(days[i])
    ensures AnyDue(rows) == Ok(exists i :: 0 <= i < |days| && days[i] <= AlertThresholdDays)
  {
    if |rows| > 0 && days[0] > AlertThresholdDays {
      AlertIffSomeDue(rows[1..], days[1..]);
      assert forall i :: 1 <= i < |days| ==> days[1..][i - 1] == days[i];
    }
  }

  function Min(days: seq<int>): (m: int)
    requires |days| > 0
    ensures forall i :: 0 <= i < |days| ==> m <= days[i]
    ensures exists i :: 0 <= i < |days| && m == days[i]
  {
    if |days| == 1 then days[0]
    else
      var rest := Min(days[1..]);
      assert forall i :: 1 <= i < |days| ==> days[1..][i - 1] == days[i];
      if days[0] <= rest then days[0] else rest
  }

  /** Equivalently, an alert is due exactly when the smallest countdown is at most 60. */
  lemma AlertIffMinimumDue(rows: seq<Row>, days: seq<int>)
    requires |rows| == |days| > 0
    requires forall i :: 0 <= i < |rows| ==> LabelDays(rows[i].countdown) == Some(days[i])
    ensures AnyDue(rows) == Ok(Min(days) <= AlertThresholdDays)
  {
    AlertIffSomeDue(rows, days);
  }

  /** A single row alerts exactly when its countdown is at most 60: 60 does, 61 does not. */
  lemma AlertBoundary(domain: string, endTime: string, n: int)
    ensures AnyDue([Row(domain, endTime, CountdownLabel(n))]) == Ok(n <= AlertThresholdDays)
  {
    LabelRoundTrip(n);
    AlertIffSomeDue([Row(domain, endTime, CountdownLabel(n))], [n]);
  }

  /** What the service answered: the value of the `Certificates` key
      (`None` when the key is absent or null), or the message of the SDK
      exception the request raised. */
  type Response = Result<Option<seq<Certificate>>, string>

  /** What the run leaves in the log, or on the console for `NoCertificates`. */
  datatype Note =
    | EmailRequested         // the table went to `send_email`
    | NoneDue                // "no certificate expires within 60 days"
    | NoCertificates         // "no certificate information found"
    | FetchFailed(message: string)
    | Aborted(error: EvalError)

  /** The effects of one run: the rows printed as the console table, the
      HTML body handed to the mailer, and the note. */
  datatype RunReport = RunReport(table: Option<seq<Row>>, email: Option<string>, note: Note)

  /** `list_certificates` after the service call, with the exception
      handlers turned into notes. A mail is only ever requested with the
      HTML rendering of the table that was printed. */
  function ListCertificates(response: Response, clock: nat -> int): (r: RunReport)
    ensures response.Err? ==> r == RunReport(None, None, FetchFailed(response.error))
    ensures response.Ok? && (response.value.None? || |response.value.value| == 0) ==>
              r == RunReport(None, None, NoCertificates)
    ensures r.email.Some? ==> r.table.Some? && r.email.value == GenerateHtmlTable(r.table.value)
    ensures r.table.Some? ==> && response.Ok? && response.value.Some?
                              && BuildRows(response.value.value, clock) == Ok(r.table.value)
  {
    match response
    case Err(message) => RunReport(None, None, FetchFailed(message))
    case Ok(listing) =>
      if listing.None? || |listing.value| == 0 then RunReport(None, None, NoCertificates)
      else
        match BuildRows(listing.value, clock)
        case Err(e) => RunReport(None, None, Aborted(e))
        case Ok(rows) =>
          match AnyDue(rows)
          case Err(e) => RunReport(Some(rows), None, Aborted(e))
          case Ok(due) =>
            if due then RunReport(Some(rows), Some(GenerateHtmlTable(rows)), EmailRequested)
            else RunReport(Some(rows), None, NoneDue)
  }

  /** A certificate that cannot be evaluated aborts the run before anything
      is printed or mailed. */
  lemma RunAbortsOnBadCertificate(certs: seq<Certificate>, clock: nat -> int, k: int)
    requires 0 <= k < |certs| && !Evaluable(certs[k])
    ensures var r := ListCertificates(Ok(Some(certs)), clock);
            r.table.None? && r.email.None? && r.note.Aborted?
  {
  }

  /** When every certificate can be evaluated, the table has one row per
      certificate in the service's order, holding its domain, its expiry
      text unchanged and its countdown label; a mail is requested exactly
      when some countdown is at most 60. */
  lemma RunReportsEveryCertificate(certs: seq<Certificate>, clock: nat -> int)
    requires |certs| > 0 && forall i :: 0 <= i < |certs| ==> Evaluable(certs[i])
    ensures var r := ListCertificates(Ok(Some(certs)), clock);
            && r.table.Some? && |r.table.value| == |certs|
            && (forall i :: 0 <= i < |certs| ==>
                  r.table.value[i] == Row(certs[i].domain.value, certs[i].certEndTime.value,
                                          CountdownLabel(DaysLeft(certs[i], clock(i)))))
            && (r.email.Some? <==> exists i :: 0 <= i < |certs| && DaysLeft(certs[i], clock(i)) <= AlertThresholdDays)
            && r.note == (if r.email.Some? then EmailRequested else NoneDue)
  {
    var rows := BuildRows(certs, clock).value;
    var days := DaysLeftAll(certs, clock);
    RowsOfEvaluable(certs, clock);
    AlertIffSomeDue(rows, days);
    ReportOfRows(certs, clock);
  }

  /** The countdowns of a list of evaluable certificates, in order. */
  function DaysLeftAll(certs: seq<Certificate>, clock: nat -> int): (days: seq<int>)
    requires forall i :: 0 <= i < |certs| ==> Evaluable(certs[i])
    ensures |days| == |certs| && forall i :: 0 <= i < |certs| ==> days[i] == DaysLeft(certs[i], clock(i))
  {
    seq(|certs|, i requires 0 <= i < |certs| && Evaluable(certs[i]) => DaysLeft(certs[i], clock(i)))
  }

  /** The rows built from evaluable certificates, field by field. */
  lemma RowsOfEvaluable(certs: seq<Certificate>, clock: nat -> int)
    requires forall i :: 0 <= i < |certs| ==> Evaluable(certs[i])
    ensures var rows := BuildRows(certs, clock);
            && rows.Ok? && |rows.value| == |certs|
            && forall i :: 0 <= i < |certs| ==>
                 && rows.value[i] == Row(certs[i].domain.value, certs[i].certEndTime.value,
                                         CountdownLabel(DaysLeft(certs[i], clock(i))))
                 && LabelDays(rows.value[i].countdown) == Some(DaysLeftAll(certs, clock)[i])
  {
    var rows := BuildRows(certs, clock).value;
    forall i | 0 <= i < |certs|
      ensures rows[i] == Row(certs[i].domain.value, certs[i].certEndTime.value, CountdownLabel(DaysLeft(certs[i], clock(i))))
    {
      assert Ok(rows[i]) == EvaluateOne(certs[i], clock(i));
    }
  }

  /** Once the rows are built and every label reads back, the run prints
      them and mails them exactly when one is due. */
  lemma ReportOfRows(certs: seq<Certificate>, clock: nat -> int)
    requires |certs| > 0 && BuildRows(certs, clock).Ok?
    requires AnyDue(BuildRows(certs, clock).value).Ok?
    ensures var rows := BuildRows(certs, clock).value;
            ListCertificates(Ok(Some(certs)), clock)
              == if AnyDue(rows).value then RunReport(Some(rows), Some(GenerateHtmlTable(rows)), EmailRequested)
                 else RunReport(Some(rows), None, NoneDue)
  {
  }

  /** The mailed HTML carries exactly the printed table: reading the rows
      back out of the mail body gives the table, as long as no domain
      contains markup. An expiry text that parses never does. */
  lemma EmailCarriesTable(certs: seq<Certificate>, clock: nat -> int)
    requires forall i :: 0 <= i < |certs| ==> Evaluable(certs[i]) && PlainText(certs[i].domain.value)
    ensures var r := ListCertificates(Ok(Some(certs)), clock);
            r.email.Some? ==> DecodeTable(r.email.value) == r.table
  {
    var r := ListCertificates(Ok(Some(certs)), clock);
    if r.email.Some? {
      var rows := r.table.value;
      forall i | 0 <= i < |rows|
        ensures PlainRow(rows[i])
      {
        RowIsPlain(certs[i], clock(i));
      }
      TableRoundTrip(rows);
    }
  }

  /** The row of a certificate with a plain domain is plain: neither an
      expiry text that parses nor a countdown label contains markup. */
  lemma RowIsPlain(c: Certificate, now: int)
    requires Evaluable(c) && PlainText(c.domain.value)
    ensures PlainRow(EvaluateOne(c, now).value)
  {
    ParsedTextIsPlain(c.certEndTime.value);
  }
}
