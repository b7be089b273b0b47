/**
  AuditLog.build: the record that packages an input, its transformed
  artifacts and a scan comparison, with a status derived from the
  comparison's "bypass" entry. The clock reading is passed in.
 */
module AuditLog {
  import opened Scanner
  import opened Masker

  /** The record build returns. */
  datatype AuditRecord = AuditRecord(
    generatedAt: string,
    input: string,
    artifacts: map<string, string>,
    scan: map<string, bool>,
    status: string)

  /** A value of the record seen as a dict: a text, the artifacts or the scan result. */
  datatype Field = Text(text: string) | TextMap(texts: map<string, string>) | FlagMap(flags: map<string, bool>)

  /** scan_result.get("bypass"): a present, true "bypass" entry. */
  predicate BypassReported(scanResult: map<string, bool>) {
    "bypass" in scanResult && scanResult["bypass"]
  }

  /** build(source, transformations, scan_result), with datetime.now().isoformat() given as
      `generatedAt`. */
  function Build(generatedAt: string, source: string, transformations: map<string, string>,
                 scanResult: map<string, bool>): (r: AuditRecord)
    ensures r.status == "bypass-achieved" <==> BypassReported(scanResult)
    ensures r.status == "detected" <==> !BypassReported(scanResult)
    ensures r.generatedAt == generatedAt && r.input == source
    ensures r.artifacts == transformations && r.scan == scanResult
  {
    AuditRecord(
      generatedAt,
      source,
      transformations,
      scanResult,
      if "bypass" in scanResult && scanResult["bypass"] then "bypass-achieved" else "detected")
  }

  /** The record as the dict build returns: exactly the five keys. */
  function AsDict(r: AuditRecord): (d: map<string, Field>)
    ensures d.Keys == {"generated_at", "input", "artifacts", "scan", "status"}
  {
    map[
      "generated_at" := Text(r.generatedAt),
      "input" := Text(r.input),
      "artifacts" := TextMap(r.artifacts),
      "scan" := FlagMap(r.scan),
      "status" := Text(r.status)]
  }

  /** The dict's entries are the record's fields under their keys. */
  lemma AsDictValues(r: AuditRecord)
    ensures AsDict(r)["generated_at"] == Text(r.generatedAt)
    ensures AsDict(r)["input"] == Text(r.input)
    ensures AsDict(r)["artifacts"] == TextMap(r.artifacts)
    ensures AsDict(r)["scan"] == FlagMap(r.scan)
    ensures AsDict(r)["status"] == Text(r.status)
  {
  }

  /** A scan result without a "bypass" entry, or with a false one, reads "detected". */
  lemma MissingBypassDetected(generatedAt: string, source: string, transformations: map<string, string>,
                              scanResult: map<string, bool>)
    requires "bypass" !in scanResult || !scanResult["bypass"]
    ensures Build(generatedAt, source, transformations, scanResult).status == "detected"
  {
  }

  /** Built from a comparison's dict, the status is "bypass-achieved" exactly when the
      comparison found a bypass. */
  lemma StatusFollowsComparison(generatedAt: string, source: string, transformations: map<string, string>,
                                raw: string, transformed: string)
    ensures var c := Scanner.Compare(raw, transformed);
      Build(generatedAt, source, transformations, Scanner.AsDict(c)).status == "bypass-achieved"
      <==> c.bypass
  {
    Scanner.AsDictValues(Scanner.Compare(raw, transformed));
  }

  /** Reporting a \uXXXX-escaped artifact: the status is "bypass-achieved" exactly when the
      raw input is flagged. */
  lemma UnicodeMaskReport(generatedAt: string, source: string, transformations: map<string, string>)
    ensures var c := Scanner.Compare(source, UnicodeMask(source));
      Build(generatedAt, source, transformations, Scanner.AsDict(c)).status == "bypass-achieved"
      <==> Scan(source)
  {
    StatusFollowsComparison(generatedAt, source, transformations, source, UnicodeMask(source));
    UnicodeMaskBypass(source);
  }
}
