/** One vulnerability record of the NVD 2.0 feed, as far as the bot reads it:
    the `cve` object of each element of `vulnerabilities`. */
module Cve {
  import opened Wrappers

  /** A JSON value where the bot expects a string: either a string or some
      other value (a number, say), kept as the text it would be shown as. */
  datatype Scalar = Str(s: string) | NonStr(shown: string)

  /** `cvssData` of a CVSS metric; a missing key is `None`. */
  datatype CvssData = CvssData(baseScore: Option<Scalar>, baseSeverity: Option<Scalar>)

  /** One element of a `cvssMetricV31`/`cvssMetricV30`/`cvssMetricV2` list.
      `baseSeverity` here is the metric-level field that CVSS v2 records carry. */
  datatype Metric = Metric(cvssData: Option<CvssData>, baseSeverity: Option<Scalar>)

  /** One element of `descriptions`: a language tag and a text, either of
      which may be missing. */
  datatype Description = Description(lang: Option<string>, value: Option<string>)

  /** A feed entry. An absent `descriptions` list is the empty sequence and an
      absent `metrics` object the empty map, as `cve.get(key, default)` reads them. */
  datatype Entry = Entry(
    id: string,
    published: string,
    descriptions: seq<Description>,
    metrics: map<string, seq<Metric>>)

  /** No two entries of the snapshot share an identifier. */
  predicate DistinctIds(s: seq<Entry>) {
    forall i, j :: 0 <= i < j < |s| ==> s[i].id != s[j].id
  }
}
