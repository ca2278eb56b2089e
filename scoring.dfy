/** steganalysis/scoring_engine.py: five detector scores summed and banded into a risk level. */
module Scoring {

  const CLEAN := "Clean"
  const SUSPICIOUS := "Suspicious"
  const HIGH_RISK := "High Risk"

  /** The `details` dictionary: the five scores under their fixed names. */
  datatype Details = Details(lsbScore: int, entropyScore: int, histogramScore: int, correlationScore: int, chiSquareScore: int)

  datatype Report = Report(totalScore: int, riskLevel: string, details: Details)

  /** The band of a total: at most 40 is clean, at most 75 suspicious, above that high risk. */
  function RiskLevel(total: int): (risk: string)
    ensures risk == CLEAN <==> total <= 40
    ensures risk == SUSPICIOUS <==> 40 < total <= 75
    ensures risk == HIGH_RISK <==> total > 75
  {
    if total <= 40 then CLEAN
    else if total <= 75 then SUSPICIOUS
    else HIGH_RISK
  }

  /** `aggregate_scores`. */
  function AggregateScores(lsb: int, entropy: int, histogram: int, correlation: int, chiSquare: int): (r: Report)
    ensures r.totalScore == lsb + entropy + histogram + correlation + chiSquare
    ensures r.riskLevel == RiskLevel(r.totalScore)
    ensures r.details == Details(lsb, entropy, histogram, correlation, chiSquare)
  {
    var total := lsb + entropy + histogram + correlation + chiSquare;
    Report(total, RiskLevel(total), Details(lsb, entropy, histogram, correlation, chiSquare))
  }

  /** The bands in increasing order of concern. */
  function Rank(risk: string): nat
  {
    if risk == CLEAN then 0 else if risk == SUSPICIOUS then 1 else 2
  }

  /** A higher total never gives a lower risk level. */
  lemma RiskMonotone(total: int, total': int)
    requires total <= total'
    ensures Rank(RiskLevel(total)) <= Rank(RiskLevel(total'))
  {
  }

  /** Raising any one score never lowers the risk level of the report. */
  lemma ReportMonotone(lsb: int, entropy: int, histogram: int, correlation: int, chiSquare: int, lsb': int)
    requires lsb <= lsb'
    ensures Rank(AggregateScores(lsb, entropy, histogram, correlation, chiSquare).riskLevel)
         <= Rank(AggregateScores(lsb', entropy, histogram, correlation, chiSquare).riskLevel)
  {
    RiskMonotone(lsb + entropy + histogram + correlation + chiSquare, lsb' + entropy + histogram + correlation + chiSquare);
  }
}
