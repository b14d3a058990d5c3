/**
 * Report building: the `keyReport` table in main.c and the 2-byte input report
 * (modifier byte, then one keycode) that `buildReport` copies out of it.
 */
module Reports {
  import opened Bytes
  import opened Keys

  /** Modifier bits of the boot keyboard modifier byte used by the table. */
  const ModGuiLeft: Byte := 0x08
  const ModGuiRight: Byte := 0x80

  /** Length of `reportBuffer` and of every row of `keyReport`. */
  const ReportSize: nat := 2

  /** Row `key` of `keyReport`: [modifier byte, keycode]. */
  function KeyReportRow(key: Byte): (r: seq<Byte>)
    requires key <= NumKeys
    ensures |r| == ReportSize
    ensures r[1] == 0
    ensures r[0] == 0 <==> key == 0
    ensures key == 1 ==> r[0] == ModGuiLeft
    ensures key == 2 ==> r[0] == ModGuiRight
  {
    match key
    case 0 => [0, 0]
    case 1 => [ModGuiLeft, 0]
    case _ => [ModGuiRight, 0]
  }

  /** What a host reads back out of a report of this firmware: the key index it stands for. */
  function ReportKey(report: seq<Byte>): (key: Byte)
    requires |report| == ReportSize
    ensures key <= NumKeys
  {
    if report[0] == ModGuiRight then 2
    else if report[0] == ModGuiLeft then 1
    else 0
  }

  /** Every key index yields a report from which the host recovers exactly that index. */
  lemma ReportRoundTrip(key: Byte)
    requires key <= NumKeys
    ensures ReportKey(KeyReportRow(key)) == key
  {
  }

  /** Distinct key indices give distinct reports, so no key change is invisible to the host. */
  lemma {:induction false} ReportsDistinct(k1: Byte, k2: Byte)
    requires k1 <= NumKeys && k2 <= NumKeys
    requires KeyReportRow(k1) == KeyReportRow(k2)
    ensures k1 == k2
  {
    ReportRoundTrip(k1);
    ReportRoundTrip(k2);
  }

  /** A sample of the buttons builds the report with no modifier exactly when the LED is off. */
  lemma SampledReportMatchesLed(pin: Byte)
    ensures var s := KeyDecision(pin); KeyReportRow(s.key)[0] != 0 <==> s.ledOn
  {
  }
}
