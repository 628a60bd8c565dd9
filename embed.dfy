/** `create_cve_embed`: the fields of the notification built for one entry —
    the description text, the severity and score with their source chosen by
    CVSS version precedence, and the colour derived from the severity. The
    chat-library object itself (title, link, footer, thumbnail) is not modelled. */
module Embed {
  import opened Wrappers
  import opened PyStr
  import opened Cve

  datatype Color = Red | Orange | Green | Blue

  /** Exceptions `create_cve_embed` raises on a well-typed entry: indexing an
      empty metric list (`IndexError`), and slicing the `None` that an English
      description without a `value` leaves behind (`TypeError`). */
  datatype EmbedError = EmptyMetricList(key: string) | DescriptionMissing

  datatype Rating = Rating(severity: Scalar, score: Scalar)

  /** What the notification shows of an entry. */
  datatype Notification = Notification(
    id: string,
    published: string,
    description: string,
    severity: Scalar,
    score: Scalar,
    color: Color)

  const NotAvailable: Scalar := Str("N/A")
  const Fallback: string := "Sem descrição disponível."
  /** Longest description the notification carries. */
  const DescriptionLimit: nat := 4000
  const V31: string := "cvssMetricV31"
  const V30: string := "cvssMetricV30"
  const V2: string := "cvssMetricV2"

  predicate IsEnglish(d: Description) {
    d.lang == Some("en")
  }

  /** Position of the first description tagged `en`, if any. */
  function FirstEnglish(ds: seq<Description>): (r: Option<nat>)
    ensures r.None? <==> forall j :: 0 <= j < |ds| ==> !IsEnglish(ds[j])
    ensures r.Some? ==> (r.value < |ds| && IsEnglish(ds[r.value]) &&
      forall j :: 0 <= j < r.value ==> !IsEnglish(ds[j]))
  {
    if ds == [] then None
    else if IsEnglish(ds[0]) then Some(0)
    else
      match FirstEnglish(ds[1..])
      case None => None
      case Some(i) => Some(i + 1)
  }

  /** The description text before truncation: the `value` of the first
      English description (`None` when it has none), or the fallback text
      when no description is English. */
  function DescriptionText(ds: seq<Description>): (r: Option<string>)
    ensures (forall j :: 0 <= j < |ds| ==> !IsEnglish(ds[j])) ==> r == Some(Fallback)
    ensures forall i ::
      (0 <= i < |ds| && IsEnglish(ds[i]) && forall j :: 0 <= j < i ==> !IsEnglish(ds[j])) ==>
        r == ds[i].value
  {
    match FirstEnglish(ds)
    case None => Some(Fallback)
    case Some(i) => ds[i].value
  }

  /** A metric record's `cvssData`, an empty object when missing. */
  function DataOf(m: Metric): CvssData {
    m.cvssData.GetOr(CvssData(None, None))
  }

  /** Severity and score of the first record of a metric list: both from
      `cvssData` for CVSS v3.x; for CVSS v2 the severity is the record's own
      `baseSeverity`. A missing field reads as "N/A". */
  function RatingOf(m: Metric, severityInRecord: bool): Rating {
    var data := DataOf(m);
    Rating(
      if severityInRecord then m.baseSeverity.GetOr(NotAvailable)
      else data.baseSeverity.GetOr(NotAvailable),
      data.baseScore.GetOr(NotAvailable))
  }

  /** Severity and score, taken from CVSS v3.1, else v3.0, else v2, else
      "N/A" for both. The first key present decides, even when its list is
      empty (then the lookup of element 0 fails). */
  function SeverityFor(metrics: map<string, seq<Metric>>): Result<Rating, EmbedError> {
    if V31 in metrics then
      if metrics[V31] == [] then Failure(EmptyMetricList(V31))
      else Success(RatingOf(metrics[V31][0], false))
    else if V30 in metrics then
      if metrics[V30] == [] then Failure(EmptyMetricList(V30))
      else Success(RatingOf(metrics[V30][0], false))
    else if V2 in metrics then
      if metrics[V2] == [] then Failure(EmptyMetricList(V2))
      else Success(RatingOf(metrics[V2][0], true))
    else Success(Rating(NotAvailable, NotAvailable))
  }

  /** Colour of the notification: red for critical and high, orange for
      medium, green for low, compared after upper-casing; blue for any other
      string and for a severity that is not a string. */
  function ColorFor(severity: Scalar): Color {
    match severity
    case NonStr(_) => Blue
    case Str(s) =>
      var u := Upper(s);
      if u == "CRITICAL" || u == "HIGH" then Red
      else if u == "MEDIUM" then Orange
      else if u == "LOW" then Green
      else Blue
  }

  /** The notification for an entry, or the exception building it raises.
      The metric lookup comes before the truncation of the description, so
      its failure is the one reported when both would fail. */
  function NotificationFor(e: Entry): Result<Notification, EmbedError> {
    var text := DescriptionText(e.descriptions);
    match SeverityFor(e.metrics)
    case Failure(err) => Failure(err)
    case Success(rating) =>
      if text.None? then Failure(DescriptionMissing)
      else Success(Notification(e.id, e.published, SliceTo(text.value, DescriptionLimit),
        rating.severity, rating.score, ColorFor(rating.severity)))
  }

  /** `create_cve_embed`, with its first-match loop over the descriptions. */
  method CreateCveEmbed(e: Entry) returns (r: Result<Notification, EmbedError>)
    ensures r == NotificationFor(e)
  {
    var ds := e.descriptions;
    var text: Option<string> := Some(Fallback);
    var i := 0;
    while i < |ds|
      invariant 0 <= i <= |ds|
      invariant forall j :: 0 <= j < i ==> !IsEnglish(ds[j])
      invariant text == Some(Fallback)
    {
      if ds[i].lang == Some("en") {
        text := ds[i].value;
        break;
      }
      i := i + 1;
    }
    assert text == DescriptionText(ds);
    var rated := SeverityFor(e.metrics);
    if rated.Failure? {
      return Failure(rated.error);
    }
    if text.None? {
      return Failure(DescriptionMissing);
    }
    var severity := rated.value.severity;
    r := Success(Notification(e.id, e.published, SliceTo(text.value, DescriptionLimit),
      severity, rated.value.score, ColorFor(severity)));
  }

  /** Only the highest-precedence CVSS key present matters: the records
      under lower-precedence keys never change the result. */
  lemma SeverityPrecedence(metrics: map<string, seq<Metric>>)
    ensures V31 in metrics ==>
      SeverityFor(metrics) == SeverityFor(map[V31 := metrics[V31]])
    ensures V31 !in metrics && V30 in metrics ==>
      SeverityFor(metrics) == SeverityFor(map[V30 := metrics[V30]])
    ensures V31 !in metrics && V30 !in metrics && V2 in metrics ==>
      SeverityFor(metrics) == SeverityFor(map[V2 := metrics[V2]])
    ensures V31 !in metrics && V30 !in metrics && V2 !in metrics ==>
      SeverityFor(metrics) == Success(Rating(NotAvailable, NotAvailable))
  {
  }

  /** Where severity and score come from. For the deciding key, an empty
      list fails (the lookup of element 0 raises). Otherwise the score is
      always the first record's `cvssData.baseScore`. The severity is
      `cvssData.baseSeverity` for v3.1 and v3.0, and for v2 the record's own
      `baseSeverity`, whatever `cvssData` says. A missing field reads as "N/A". */
  lemma SeveritySourceField(metrics: map<string, seq<Metric>>)
    ensures V31 in metrics && metrics[V31] == [] ==>
      SeverityFor(metrics) == Failure(EmptyMetricList(V31))
    ensures V31 in metrics && metrics[V31] != [] ==>
      SeverityFor(metrics).Success? &&
      SeverityFor(metrics).value.severity == DataOf(metrics[V31][0]).baseSeverity.GetOr(NotAvailable) &&
      SeverityFor(metrics).value.score == DataOf(metrics[V31][0]).baseScore.GetOr(NotAvailable)
    ensures V31 !in metrics && V30 in metrics && metrics[V30] == [] ==>
      SeverityFor(metrics) == Failure(EmptyMetricList(V30))
    ensures V31 !in metrics && V30 in metrics && metrics[V30] != [] ==>
      SeverityFor(metrics).Success? &&
      SeverityFor(metrics).value.severity == DataOf(metrics[V30][0]).baseSeverity.GetOr(NotAvailable) &&
      SeverityFor(metrics).value.score == DataOf(metrics[V30][0]).baseScore.GetOr(NotAvailable)
    ensures V31 !in metrics && V30 !in metrics && V2 in metrics && metrics[V2] == [] ==>
      SeverityFor(metrics) == Failure(EmptyMetricList(V2))
    ensures V31 !in metrics && V30 !in metrics && V2 in metrics && metrics[V2] != [] ==>
      SeverityFor(metrics).Success? &&
      SeverityFor(metrics).value.severity == metrics[V2][0].baseSeverity.GetOr(NotAvailable) &&
      SeverityFor(metrics).value.score == DataOf(metrics[V2][0]).baseScore.GetOr(NotAvailable)
  {
  }

  /** The colour table, stated without upper-casing: each colour is chosen
      exactly by the severity words it stands for, in any mixture of cases. */
  lemma ColorTable(s: string)
    ensures ColorFor(Str(s)) == Red <==>
      SpellsIgnoringCase(s, "CRITICAL") || SpellsIgnoringCase(s, "HIGH")
    ensures ColorFor(Str(s)) == Orange <==> SpellsIgnoringCase(s, "MEDIUM")
    ensures ColorFor(Str(s)) == Green <==> SpellsIgnoringCase(s, "LOW")
  {
    SeverityWordsQualify();
    UpperEqualsWord(s, "CRITICAL");
    UpperEqualsWord(s, "HIGH");
    UpperEqualsWord(s, "MEDIUM");
    UpperEqualsWord(s, "LOW");
  }

  lemma SeverityWordsQualify()
    ensures IsUpperWord("CRITICAL") && NoExpansionPair("CRITICAL")
    ensures IsUpperWord("HIGH") && NoExpansionPair("HIGH")
    ensures IsUpperWord("MEDIUM") && NoExpansionPair("MEDIUM")
    ensures IsUpperWord("LOW") && NoExpansionPair("LOW")
  {
    NoSOrFMeansNoPair("CRITICAL");
    NoSOrFMeansNoPair("HIGH");
    NoSOrFMeansNoPair("MEDIUM");
    NoSOrFMeansNoPair("LOW");
  }

  /** Colour does not depend on the case of the severity, and the "N/A"
      default and non-string severities are blue. */
  lemma ColorIgnoresCase(s: string, shown: string)
    ensures ColorFor(Str(AsciiLower(s))) == ColorFor(Str(s))
    ensures ColorFor(NotAvailable) == Blue
    ensures ColorFor(NonStr(shown)) == Blue
  {
    UpperIgnoresCase(s);
    assert Upper("N/A")[0] == 'N';
  }

  /** What a built notification holds: the entry's identifier and date, the
      chosen severity and score with the matching colour, and the first 4000
      characters of the description text (all of it when shorter). Building fails
      exactly when the metric lookup or the description fails. */
  lemma NotificationContents(e: Entry)
    ensures NotificationFor(e).Failure? <==>
      SeverityFor(e.metrics).Failure? || DescriptionText(e.descriptions).None?
    ensures NotificationFor(e).Success? ==>
      var n := NotificationFor(e).value;
      var text := DescriptionText(e.descriptions).value;
      n.id == e.id && n.published == e.published &&
      Rating(n.severity, n.score) == SeverityFor(e.metrics).value &&
      n.color == ColorFor(n.severity) &&
      |n.description| == (if |text| <= DescriptionLimit then |text| else DescriptionLimit) &&
      n.description == text[..|n.description|] &&
      (|text| <= DescriptionLimit ==> n.description == text)
  {
  }
}
