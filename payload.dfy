/**
 * The loosely typed survey payload as the district-courts page receives it,
 * and the canonical `Court` record the page builds from it.
 *
 * Every raw field is a variant that keeps exactly the distinctions the page's
 * code reacts to: truthy or falsy, a number or not, a string or not, null or
 * an object.
 */
module Payload {
  import opened Wrappers

  /** A JavaScript number: finite, or NaN (`typeof NaN === 'number'`). */
  datatype JsNumber = Finite(value: real) | NaN

  /** `n` is truthy: neither 0 nor NaN. */
  predicate NumberTruthy(n: JsNumber) {
    n.Finite? && n.value != 0.0
  }

  /** A display field (`court`, `instantiation`): a string, or some falsy non-string value. */
  datatype RawText = Text(s: string) | NoText

  /** A numeric field (`overall_assessment`, `total_survey_responses`): a number, or some falsy non-number value. */
  datatype RawNumber = Number(n: JsNumber) | NoNumber

  /** The `aspect` field of an assessment entry. */
  datatype RawLabel =
    | LabelText(s: string)   // a string, possibly empty
    | LabelFalsy             // undefined, null, false, 0 or NaN
    | LabelTruthyOther       // a truthy value that is not a string (a number, an object, ...)

  /** The `court_avg` field of an assessment entry. */
  datatype RawAverage = AverageNumber(n: JsNumber) | AverageOther

  /** One element of a court's `assessment` array. A primitive element reads
      `undefined` for both fields, which is `Entry(LabelFalsy, AverageOther)`,
      and is skipped. */
  datatype RawEntry =
    | NullishEntry           // null or undefined: reading a property of it throws
    | Entry(aspect: RawLabel, courtAvg: RawAverage)

  /** A court's `assessment` field: an array, or anything without an array's `reduce`. */
  datatype RawAssessment = AssessmentList(entries: seq<RawEntry>) | NotAList

  /** One element of `rayon_courts`. A primitive element reads `undefined` for every field,
      which is `CourtObject(None, NoText, NoText, NoNumber, NotAList, NoNumber)`. */
  datatype RawCourt =
    | NullishCourt
    | CourtObject(courtId: Option<int>, court: RawText, instantiation: RawText,
                  overallAssessment: RawNumber, assessment: RawAssessment,
                  totalSurveyResponses: RawNumber)

  /** The `rayon_courts` field of the response. */
  datatype RawCourts =
    | CourtsFalsy            // absent, null or another falsy value
    | CourtsArray(items: seq<RawCourt>)
    | CourtsNotArray         // truthy but without an array's `map`

  /** The whole response; a nullish response reads `rayon_courts` as undefined. */
  datatype ApiResponse = NullishResponse | Response(rayonCourts: RawCourts)

  /** The five canonical aspects of a court visit. */
  datatype AspectKey = Judge | Process | Staff | Office | Building

  /** The five-slot assessment of a canonical record. */
  datatype Assessment = Assessment(judge: real, process: real, staff: real, office: real, building: real)
  {
    function Get(k: AspectKey): real {
      match k
      case Judge => judge
      case Process => process
      case Staff => staff
      case Office => office
      case Building => building
    }
  }

  /** The canonical court record (`interface Court`). `id` is copied verbatim from
      `court_id`, so it is `None` when the payload had none. */
  datatype Court = Court(id: Option<int>, name: string, instance: string,
                         overallAssessment: real, assessment: Assessment,
                         totalSurveyResponses: real)

  const UnknownCourtName: string := "Неизвестный суд"
  const UnknownInstance: string := "Не указано"

  /** `t || fallback` for a display field. */
  function TextOr(t: RawText, fallback: string): string {
    if t.Text? && t.s != "" then t.s else fallback
  }

  /** `n || 0` for a number that passed `typeof n === 'number'`. */
  function NumberOrZero(n: JsNumber): real {
    if NumberTruthy(n) then n.value else 0.0
  }

  /** `n || 0` for a numeric field. */
  function RawNumberOrZero(n: RawNumber): real {
    if n.Number? then NumberOrZero(n.n) else 0.0
  }
}
