/**
 * The state of the `Courts` page component (page.tsx, lines 93-158): the
 * loaded court list, the sort column and direction, and the drill-down into
 * one court's survey results. The setters of the survey context
 * (`setCourtName`, `setSurveyData`, `setIsLoading`) are fields here too.
 */
module Page {
  import opened Wrappers
  import opened Payload
  import opened Transform
  import opened Sorting

  /** The pair `(sortField, sortDirection)`. */
  datatype SortState = SortState(field: Option<SortField>, direction: Option<Direction>)

  /** The sort state after a click on the header of `clicked` (lines 151-158). */
  function NextSort(s: SortState, clicked: Option<SortField>): (r: SortState)
    ensures r.field == clicked && r.direction.Some?
    ensures s.field != clicked ==> r.direction == Some(Asc)
    ensures s.field == clicked ==> (r.direction == Some(Desc) <==> s.direction == Some(Asc))
  {
    if s.field == clicked then SortState(s.field, if s.direction == Some(Asc) then Some(Desc) else Some(Asc))
    else SortState(clicked, Some(Asc))
  }

  /** Clicking the current column twice restores the direction it had. */
  lemma ClickTwiceRestores(s: SortState)
    requires s.direction.Some?
    ensures NextSort(NextSort(s, s.field), s.field) == s
  {
    match s.direction.value
    case Asc =>
    case Desc =>
  }

  /** Clicking one column repeatedly, starting from any state, alternates
      ascending and descending, beginning with ascending on a new column. */
  lemma {:induction false} RepeatedClicks(s: SortState, f: Option<SortField>, n: nat)
    requires s.field != f
    ensures Clicks(s, f, n + 1) == SortState(f, if n % 2 == 0 then Some(Asc) else Some(Desc))
  {
    if n > 0 {
      RepeatedClicks(s, f, n - 1);
    }
  }

  /** The sort state after `n` clicks on column `f`. */
  function Clicks(s: SortState, f: Option<SortField>, n: nat): SortState {
    if n == 0 then s else NextSort(Clicks(s, f, n - 1), f)
  }

  /** What the detail request (`fetch` and `response.json()`) produced. The
      payload is opaque to this page; it is kept as received. */
  datatype FetchOutcome = Fetched(payload: string) | FetchFailed

  class CourtsPage {
    var courts: seq<Court>
    var sortField: Option<SortField>
    var sortDirection: Option<Direction>
    var showEvaluations: bool
    // survey context
    var isLoading: bool
    var courtName: string
    var surveyData: Option<string>

    /** A selected column always has a direction, and the detail view is only
        shown once a detail payload has been stored. */
    ghost predicate Valid()
      reads this
    {
      && (sortField.Some? ==> sortDirection.Some?)
      && (showEvaluations ==> surveyData.Some?)
    }

    function Sort(): SortState
      reads this
    {
      SortState(sortField, sortDirection)
    }

    /** The initial state of the `useState` hooks; the context starts idle and empty. */
    constructor ()
      ensures Valid()
      ensures courts == [] && sortField == None && sortDirection == None && !showEvaluations
      ensures !isLoading && courtName == "" && surveyData == None
    {
      courts := [];
      sortField, sortDirection := None, None;
      showEvaluations := false;
      isLoading, courtName, surveyData := false, "", None;
    }

    /** `fetchCourts` (lines 138-146): the response is transformed as the code
        is written and stored; if the transformation throws (a truthy
        non-array, or a null court), the list is left as it was. */
    method LoadCourts(data: ApiResponse)
      requires Valid()
      modifies this`courts
      ensures Valid()
      ensures TransformApiDataAsWritten(data).Returned? ==> courts == TransformApiDataAsWritten(data).value
      ensures TransformApiDataAsWritten(data).Threw? ==> courts == old(courts)
    {
      var transformed := TransformApiDataAsWritten(data);
      if transformed.Returned? {
        courts := transformed.value;
      }
    }

    /** `handleSort` (lines 151-158). */
    method HandleSort(field: Option<SortField>)
      requires Valid()
      modifies this`sortField, this`sortDirection
      ensures Valid()
      ensures Sort() == NextSort(old(Sort()), field)
    {
      if sortField == field {
        sortDirection := if sortDirection == Some(Asc) then Some(Desc) else Some(Asc);
      } else {
        sortField := field;
        sortDirection := Some(Asc);
      }
    }

    /** The part of `handleCourtClick` before the `await` (lines 113-114). */
    method BeginCourtClick(court: Court)
      requires Valid()
      modifies this`isLoading, this`courtName
      ensures Valid()
      ensures isLoading && courtName == court.name
    {
      isLoading := true;
      courtName := court.name;
    }

    /** The part of `handleCourtClick` after the `await` (lines 123-134): on
        success the payload is stored and the detail view shown; either way the
        loading flag is cleared. */
    method EndCourtClick(outcome: FetchOutcome)
      requires Valid()
      modifies this`surveyData, this`showEvaluations, this`isLoading
      ensures Valid()
      ensures !isLoading
      ensures surveyData == if outcome.Fetched? then Some(outcome.payload) else old(surveyData)
      ensures showEvaluations == (old(showEvaluations) || outcome.Fetched?)
    {
      if outcome.Fetched? {
        surveyData := Some(outcome.payload);
        showEvaluations := true;
      }
      isLoading := false;
    }

    /** `handleCourtClick` (lines 111-135) with nothing else happening during the request. */
    method HandleCourtClick(court: Court, outcome: FetchOutcome)
      requires Valid()
      modifies this`isLoading, this`courtName, this`surveyData, this`showEvaluations
      ensures Valid()
      ensures !isLoading && courtName == court.name
      ensures surveyData == if outcome.Fetched? then Some(outcome.payload) else old(surveyData)
      ensures showEvaluations == (old(showEvaluations) || outcome.Fetched?)
      ensures courts == old(courts) && Sort() == old(Sort())
    {
      BeginCourtClick(court);
      EndCourtClick(outcome);
    }
  }
}
