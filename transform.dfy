/**
 * `transformApiData` (page.tsx, lines 48-91): the survey response becomes the
 * list of canonical court records.
 *
 * `NormalizeCourt` is the body of the per-court `try`. The per-court `catch`
 * is modelled twice: `MapCourtAsWritten` follows the code, whose diagnostic
 * reads `court.court_id` and therefore throws again for a null element, and
 * `MapCourt` keeps the evident intent of dropping only that element.
 * `TransformApiData` uses the latter.
 */
module Transform {
  import opened Wrappers
  import opened Payload
  import opened Aspects

  /** The slot value `assessmentMap[k] || 0` for a map the fold produced. */
  function SlotValue(m: AspectMap, k: AspectKey): real {
    if k in m then NumberOrZero(m[k]) else 0.0
  }

  /** The value the fold leaves in slot `k`, stated by the last-write reference. */
  function LastWriteOrZero(entries: seq<RawEntry>, k: AspectKey): real {
    match LastWrite(entries, k)
    case Some(v) => NumberOrZero(v)
    case None => 0.0
  }

  /** The `assessment` object literal at lines 77-83: all five slots, each
      `assessmentMap[k] || 0`. */
  function AssessmentOf(m: AspectMap): (a: Assessment)
    ensures forall k :: a.Get(k) == if k in m && NumberTruthy(m[k]) then m[k].value else 0.0
  {
    Assessment(SlotValue(m, Judge), SlotValue(m, Process), SlotValue(m, Staff),
               SlotValue(m, Office), SlotValue(m, Building))
  }

  lemma SlotsOfFold(entries: seq<RawEntry>)
    ensures FoldAspects(entries).Returned? ==>
      forall k :: SlotValue(FoldAspects(entries).value, k) == LastWriteOrZero(entries, k)
  {
  }

  /** The `try` body at lines 56-85: one raw court to one record, or a throw. */
  function NormalizeCourt(c: RawCourt): (r: Outcome<Court>)
    ensures r.Returned? <==>
      c.CourtObject? && c.assessment.AssessmentList?
      && forall i :: 0 <= i < |c.assessment.entries| ==> !EntryThrows(c.assessment.entries[i])
    ensures r.Returned? ==>
      && r.value.id == c.courtId
      && r.value.name == TextOr(c.court, UnknownCourtName)
      && r.value.instance == TextOr(c.instantiation, UnknownInstance)
      && r.value.overallAssessment == RawNumberOrZero(c.overallAssessment)
      && r.value.totalSurveyResponses == RawNumberOrZero(c.totalSurveyResponses)
      && forall k :: r.value.assessment.Get(k) == LastWriteOrZero(c.assessment.entries, k)
  {
    match c
    case NullishCourt => Threw                                    // `court.assessment` of null
    case CourtObject(courtId, name, instantiation, overall, assessment, total) =>
      match assessment
      case NotAList => Threw                                      // `reduce` is not a function
      case AssessmentList(entries) =>
        SlotsOfFold(entries);
        match FoldAspects(entries)
        case Threw => Threw
        case Returned(m) =>
          Returned(Court(
            courtId,
            TextOr(name, UnknownCourtName),
            TextOr(instantiation, UnknownInstance),
            RawNumberOrZero(overall),
            AssessmentOf(m),
            RawNumberOrZero(total)))
  }

  /** The per-court callback of `map` as written: a throw in the body becomes
      `null`, except that for a null/undefined court the `catch` block's own
      `court.court_id` throws and the exception escapes. */
  function MapCourtAsWritten(c: RawCourt): (r: Outcome<Option<Court>>)
    ensures r.Threw? <==> c.NullishCourt?
    ensures r.Returned? ==> r.value == MapCourt(c)
  {
    match NormalizeCourt(c)
    case Returned(r) => Returned(Some(r))
    case Threw => if c.NullishCourt? then Threw else Returned(None)
  }

  /** The per-court callback as intended: any throw in the body becomes `null`. */
  function MapCourt(c: RawCourt): Option<Court> {
    match NormalizeCourt(c)
    case Returned(r) => Some(r)
    case Threw => None
  }

  /** `.filter(Boolean)`: the records, in order, without the nulls. */
  function Present(xs: seq<Option<Court>>): (r: seq<Court>)
    ensures |r| <= |xs|
    ensures |r| == |xs| <==> forall i :: 0 <= i < |xs| ==> xs[i].Some?
    decreases |xs|
  {
    if xs == [] then []
    else
      assert forall i :: 0 < i < |xs| ==> xs[i] == xs[1..][i - 1];
      (if xs[0].Some? then [xs[0].value] else []) + Present(xs[1..])
  }

  /** `rayon_courts.map(...)` with the callback as written; it stops at the first escaping throw. */
  function MapCourtsAsWritten(cs: seq<RawCourt>): (r: Outcome<seq<Option<Court>>>)
    ensures r.Returned? ==> |r.value| == |cs|
    decreases |cs|
  {
    if cs == [] then Returned([])
    else match MapCourtAsWritten(cs[0])
      case Threw => Threw
      case Returned(x) =>
        match MapCourtsAsWritten(cs[1..])
        case Threw => Threw
        case Returned(xs) => Returned([x] + xs)
  }

  /** `rayon_courts.map(...)` with the intended callback. */
  function MapCourts(cs: seq<RawCourt>): (xs: seq<Option<Court>>)
    ensures |xs| == |cs|
    ensures forall i :: 0 <= i < |cs| ==>
      (xs[i].Some? <==>
         (cs[i].CourtObject? && cs[i].assessment.AssessmentList?
          && forall j :: 0 <= j < |cs[i].assessment.entries| ==> !EntryThrows(cs[i].assessment.entries[j])))
    ensures forall i :: 0 <= i < |cs| && xs[i].Some? ==> NormalizeCourt(cs[i]) == Returned(xs[i].value)
  {
    seq(|cs|, i requires 0 <= i < |cs| => MapCourt(cs[i]))
  }

  /** A court with a valid aspect list none of whose labels is recognised gets
      all five slots 0, whatever its other fields are. */
  lemma NoRecognisedAspectsAllZero(c: RawCourt)
    requires c.CourtObject? && c.assessment.AssessmentList?
    requires forall i :: 0 <= i < |c.assessment.entries| ==> !EntryThrows(c.assessment.entries[i])
    requires forall i, k :: 0 <= i < |c.assessment.entries| ==> !Writes(c.assessment.entries[i], k)
    ensures NormalizeCourt(c).Returned?
    ensures forall k :: NormalizeCourt(c).value.assessment.Get(k) == 0.0
  {
    forall k ensures LastWrite(c.assessment.entries, k).None? {
      LastWriteNone(c.assessment.entries, k);
    }
  }

  /** `transformApiData` as written (lines 48-91). */
  function TransformApiDataAsWritten(data: ApiResponse): (r: Outcome<seq<Court>>)
    ensures data.NullishResponse? || data.rayonCourts.CourtsFalsy? ==> r == Returned([])
    ensures r.Threw? <==>
      (data.Response? && (data.rayonCourts.CourtsNotArray? || (data.rayonCourts.CourtsArray? &&
         exists i :: 0 <= i < |data.rayonCourts.items| && data.rayonCourts.items[i].NullishCourt?)))
    ensures r.Returned? ==> r == TransformApiData(data)
  {
    if data.NullishResponse? || data.rayonCourts.CourtsFalsy? then Returned([])
    else match data.rayonCourts
      case CourtsNotArray => Threw                                // `map` is not a function
      case CourtsArray(cs) =>
        MapCourtsAsWrittenSpec(cs);
        match MapCourtsAsWritten(cs)
        case Threw => Threw
        case Returned(xs) => Returned(Present(xs))
  }

  /** `transformApiData` with each court's failure contained to that court. */
  function TransformApiData(data: ApiResponse): (r: Outcome<seq<Court>>)
    ensures data.NullishResponse? || data.rayonCourts.CourtsFalsy? ==> r == Returned([])
    ensures r.Threw? <==> data.Response? && data.rayonCourts.CourtsNotArray?
    ensures data.Response? && data.rayonCourts.CourtsArray? ==>
      r.Returned? && |r.value| <= |data.rayonCourts.items|
  {
    if data.NullishResponse? || data.rayonCourts.CourtsFalsy? then Returned([])
    else match data.rayonCourts
      case CourtsNotArray => Threw
      case CourtsArray(cs) =>
        Returned(Present(MapCourts(cs)))
  }

  // ---------------------------------------------------------------------------
  // Properties of the list of survivors

  lemma {:induction false} PresentAppend(xs: seq<Option<Court>>, ys: seq<Option<Court>>)
    ensures Present(xs + ys) == Present(xs) + Present(ys)
    decreases |xs|
  {
    if xs == [] {
      assert xs + ys == ys;
    } else {
      assert (xs + ys)[1..] == xs[1..] + ys;
      PresentAppend(xs[1..], ys);
    }
  }

  /** The positions, counted from `base`, of the records that `.filter(Boolean)` keeps. */
  function PresentIndices(xs: seq<Option<Court>>, base: nat): seq<nat>
    decreases |xs|
  {
    if xs == [] then []
    else (if xs[0].Some? then [base] else []) + PresentIndices(xs[1..], base + 1)
  }

  lemma {:induction false} PresentIndicesRange(xs: seq<Option<Court>>, base: nat)
    ensures forall k :: 0 <= k < |PresentIndices(xs, base)| ==> base <= PresentIndices(xs, base)[k] < base + |xs|
    ensures forall k, l :: 0 <= k < l < |PresentIndices(xs, base)| ==>
      PresentIndices(xs, base)[k] < PresentIndices(xs, base)[l]
    decreases |xs|
  {
    if xs != [] { PresentIndicesRange(xs[1..], base + 1); }
  }

  lemma {:induction false} PresentValues(xs: seq<Option<Court>>, base: nat)
    ensures |PresentIndices(xs, base)| == |Present(xs)|
    ensures forall k :: 0 <= k < |PresentIndices(xs, base)| ==>
      base <= PresentIndices(xs, base)[k] < base + |xs|
      && xs[PresentIndices(xs, base)[k] - base] == Some(Present(xs)[k])
    decreases |xs|
  {
    PresentIndicesRange(xs, base);
    if xs != [] {
      var tail := xs[1..];
      PresentValues(tail, base + 1);
      PresentIndicesRange(tail, base + 1);
      var rest, rs := PresentIndices(tail, base + 1), Present(tail);
      var idx, out := PresentIndices(xs, base), Present(xs);
      var head: seq<nat> := if xs[0].Some? then [base] else [];
      var kept: seq<Court> := if xs[0].Some? then [xs[0].value] else [];
      assert idx == head + rest;
      assert out == kept + rs;
      var h := |head|;
      forall k | 0 <= k < |idx|
        ensures xs[idx[k] - base] == Some(out[k])
      {
        if k < h {
          assert idx[k] == base && out[k] == xs[0].value;
        } else {
          assert idx[k] == rest[k - h] && out[k] == rs[k - h];
          assert xs[rest[k - h] - base] == tail[rest[k - h] - (base + 1)];
        }
      }
    }
  }

  lemma {:induction false} PresentMembership(xs: seq<Option<Court>>, base: nat)
    ensures forall i :: 0 <= i < |xs| ==> (xs[i].Some? <==> base + i in PresentIndices(xs, base))
    decreases |xs|
  {
    if xs != [] {
      var tail := xs[1..];
      PresentMembership(tail, base + 1);
      PresentIndicesRange(tail, base + 1);
      var head := if xs[0].Some? then [base] else [];
      var rest := PresentIndices(tail, base + 1);
      assert PresentIndices(xs, base) == head + rest;
      forall i | 0 <= i < |xs|
        ensures xs[i].Some? <==> base + i in head + rest
      {
        if i > 0 {
          assert xs[i] == tail[i - 1];
          assert base + i !in head;
        } else {
          assert base !in rest;
        }
      }
    }
  }

  /** The survivors are an order-preserving subsequence of the input: exactly
      the courts whose processing returned, in input order, each normalised. */
  lemma SurvivorsAreSubsequence(cs: seq<RawCourt>)
    ensures var rs, idx := TransformApiData(Response(CourtsArray(cs))).value, PresentIndices(MapCourts(cs), 0);
      && |idx| == |rs| <= |cs|
      && (forall k :: 0 <= k < |idx| ==> idx[k] < |cs| && NormalizeCourt(cs[idx[k]]) == Returned(rs[k]))
      && (forall k, l :: 0 <= k < l < |idx| ==> idx[k] < idx[l])
      && (forall i :: 0 <= i < |cs| ==> (NormalizeCourt(cs[i]).Returned? <==> i in idx))
  {
    var xs := MapCourts(cs);
    PresentIndicesRange(xs, 0);
    PresentValues(xs, 0);
    PresentMembership(xs, 0);
  }

  lemma MapCourtsAppend(xs: seq<RawCourt>, ys: seq<RawCourt>)
    ensures MapCourts(xs + ys) == MapCourts(xs) + MapCourts(ys)
  {
    var l, r := MapCourts(xs + ys), MapCourts(xs) + MapCourts(ys);
    forall i | 0 <= i < |l| ensures l[i] == r[i] {
      if i < |xs| { assert (xs + ys)[i] == xs[i]; } else { assert (xs + ys)[i] == ys[i - |xs|]; }
    }
  }

  /** A court whose processing throws is dropped without affecting any other:
      inserting it anywhere leaves the dataset unchanged. */
  lemma DropThrowingCourt(before: seq<RawCourt>, bad: RawCourt, after: seq<RawCourt>)
    requires NormalizeCourt(bad).Threw?
    ensures TransformApiData(Response(CourtsArray(before + [bad] + after)))
         == TransformApiData(Response(CourtsArray(before + after)))
  {
    var xb, xa := MapCourts(before), MapCourts(after);
    var none: seq<Option<Court>> := [None];
    assert MapCourts([bad]) == none;
    MapCourtsAppend(before, [bad]);
    MapCourtsAppend(before + [bad], after);
    MapCourtsAppend(before, after);
    assert Present(none) == [] by { assert none[1..] == []; }
    PresentAppend(xb + none, xa);
    PresentAppend(xb, none);
    PresentAppend(xb, xa);
    assert Present(xb + none + xa) == Present(xb + xa);
  }

  // ---------------------------------------------------------------------------
  // The code as written against the intended behaviour

  lemma {:induction false} MapCourtsAsWrittenSpec(cs: seq<RawCourt>)
    ensures MapCourtsAsWritten(cs).Threw? <==> exists i :: 0 <= i < |cs| && cs[i].NullishCourt?
    ensures MapCourtsAsWritten(cs).Returned? ==> MapCourtsAsWritten(cs).value == MapCourts(cs)
    decreases |cs|
  {
    if cs != [] {
      MapCourtsAsWrittenSpec(cs[1..]);
      assert forall i :: 1 <= i < |cs| ==> cs[i] == cs[1..][i - 1];
      if MapCourtsAsWritten(cs).Returned? {
        assert MapCourts(cs) == [MapCourt(cs[0])] + MapCourts(cs[1..]);
      }
    }
  }

  /** The concrete input `{ rayon_courts: [null, <valid court>] }`. */
  lemma NullCourtCounterexample()
    ensures var good := CourtObject(Some(7), Text("Суд"), NoText, Number(Finite(4.0)),
                                    AssessmentList([]), Number(Finite(12.0)));
      && TransformApiDataAsWritten(Response(CourtsArray([NullishCourt, good]))) == Threw
      && TransformApiData(Response(CourtsArray([NullishCourt, good])))
         == Returned([Court(Some(7), "Суд", UnknownInstance, 4.0, Assessment(0.0, 0.0, 0.0, 0.0, 0.0), 12.0)])
  {
    var good := CourtObject(Some(7), Text("Суд"), NoText, Number(Finite(4.0)),
                            AssessmentList([]), Number(Finite(12.0)));
    var rec := Court(Some(7), "Суд", UnknownInstance, 4.0, Assessment(0.0, 0.0, 0.0, 0.0, 0.0), 12.0);
    assert FoldAspects([]) == Returned(map[]);
    assert NormalizeCourt(good) == Returned(rec);
    assert MapCourtsAsWritten([NullishCourt, good]) == Threw;
    assert MapCourts([NullishCourt, good]) == [None, Some(rec)];
    assert [None, Some(rec)][1..] == [Some(rec)];
    assert [Some(rec)][1..] == [];
    assert Present([Some(rec)]) == [rec];
    assert Present([None, Some(rec)]) == [rec];
  }
}
