/**
  The eight onboarding stages an employee moves through, in pipeline order,
  and the badge colour classes the cards use for each
  (frontend/src/constants/statuses.js).
 */
module Statuses {

  /** `STATUSES`. */
  const STATUSES: seq<string> := [
    "Candidate Prep",
    "In Training",
    "Ready for Matching",
    "Matching Pool",
    "Rematching Pool",
    "Not Eligible (Learning Performance)",
    "Plotted with Client",
    "On Assignment"
  ]

  /** `STATUS_COLORS`: Tailwind background and text classes per stage. */
  const STATUS_COLORS: map<string, string> := map[
    "Candidate Prep" := "bg-blue-100 text-blue-800",
    "In Training" := "bg-yellow-100 text-yellow-800",
    "Ready for Matching" := "bg-green-100 text-green-800",
    "Matching Pool" := "bg-purple-100 text-purple-800",
    "Rematching Pool" := "bg-orange-100 text-orange-800",
    "Not Eligible (Learning Performance)" := "bg-red-100 text-red-800",
    "Plotted with Client" := "bg-indigo-100 text-indigo-800",
    "On Assignment" := "bg-teal-100 text-teal-800"
  ]

  /** `status` is one of the eight stages. Nothing on the server checks this:
      any non-empty string is stored as a status. */
  predicate IsStatus(status: string) {
    status in STATUSES
  }

  /** The position of a stage in the pipeline. */
  function StageIndex(status: string): (i: int)
    requires IsStatus(status)
    ensures 0 <= i < |STATUSES| && STATUSES[i] == status
    ensures forall j :: 0 <= j < |STATUSES| && STATUSES[j] == status ==> j == i
  {
    StagesDistinct();
    if status == STATUSES[0] then 0
    else if status == STATUSES[1] then 1
    else if status == STATUSES[2] then 2
    else if status == STATUSES[3] then 3
    else if status == STATUSES[4] then 4
    else if status == STATUSES[5] then 5
    else if status == STATUSES[6] then 6
    else 7
  }

  /** There are exactly eight stages, from 'Candidate Prep' to 'On Assignment'. */
  lemma StagesFixed()
    ensures |STATUSES| == 8
    ensures STATUSES[0] == "Candidate Prep" && STATUSES[7] == "On Assignment"
  {
  }

  /** No stage is listed twice. */
  lemma StagesDistinct()
    ensures forall i, j :: 0 <= i < j < |STATUSES| ==> STATUSES[i] != STATUSES[j]
  {
    forall i, j | 0 <= i < j < |STATUSES|
      ensures STATUSES[i] != STATUSES[j]
    {
      assert STATUSES[i][0] != STATUSES[j][0] || |STATUSES[i]| != |STATUSES[j]|;
    }
  }

  /** Every stage has a colour, and every colour belongs to a stage. */
  lemma ColorsCoverStages()
    ensures forall s :: s in STATUS_COLORS <==> IsStatus(s)
  {
  }
}
