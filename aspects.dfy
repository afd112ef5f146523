/**
 * The aspect classifier and the `reduce` that folds a court's assessment
 * entries into a five-slot map (page.tsx, lines 56-70).
 */
module Aspects {
  import opened Wrappers
  import opened Payload

  /** `String.prototype.toLowerCase` on one character, for Basic Latin and the
      Cyrillic capitals U+0400-U+042F; every other character is left as it is. */
  function LowerChar(c: char): char {
    if 'A' <= c <= 'Z' then (c as int + 32) as char
    else if 'А' <= c <= 'Я' then (c as int + 32) as char
    else if 'Ѐ' <= c <= 'Џ' then (c as int + 80) as char
    else c
  }

  function Lower(s: string): string {
    seq(|s|, i requires 0 <= i < |s| => LowerChar(s[i]))
  }

  /** The locale label of each canonical aspect, in lower case. */
  function Label(k: AspectKey): string {
    match k
    case Building => "здание"
    case Office => "канцелярия"
    case Process => "процесс"
    case Staff => "сотрудники"
    case Judge => "судья"
  }

  /** The chain of `toLowerCase() === ...` tests at lines 62-66: the aspect a label
      names, compared case-insensitively, or `None` for the empty key `''`. */
  function ClassifyLabel(s: string): (k: Option<AspectKey>)
    ensures k.Some? ==> Lower(s) == Label(k.value)
    ensures k.None? <==> forall key: AspectKey :: Lower(s) != Label(key)
  {
    var l := Lower(s);
    if l == "здание" then Some(Building)
    else if l == "канцелярия" then Some(Office)
    else if l == "процесс" then Some(Process)
    else if l == "сотрудники" then Some(Staff)
    else if l == "судья" then Some(Judge)
    else None
  }

  /** Every canonical label classifies as its own aspect. */
  lemma ClassifyCanonicalLabels()
    ensures forall k: AspectKey :: ClassifyLabel(Label(k)) == Some(k)
  {
    assert Lower("здание") == "здание";
    assert Lower("канцелярия") == "канцелярия";
    assert Lower("процесс") == "процесс";
    assert Lower("сотрудники") == "сотрудники";
    assert Lower("судья") == "судья";
  }

  /** The capital of a lower-case Basic Latin or Cyrillic letter (U+0430-U+045F);
      every other character is left as it is. */
  function UpperChar(c: char): char {
    if 'a' <= c <= 'z' then (c as int - 32) as char
    else if 'а' <= c <= 'я' then (c as int - 32) as char
    else if 'ѐ' <= c <= 'џ' then (c as int - 80) as char
    else c
  }

  function Upper(s: string): string {
    seq(|s|, i requires 0 <= i < |s| => UpperChar(s[i]))
  }

  /** `s` with its first character capitalised. */
  function Capitalised(s: string): string {
    if s == [] then [] else [UpperChar(s[0])] + s[1..]
  }

  /** Lower-casing undoes capitalising. */
  lemma LowerUpperChar(c: char)
    ensures LowerChar(UpperChar(c)) == LowerChar(c)
  {
  }

  /** The classification ignores case: capitalising any selection of the
      characters of a label does not change the aspect it names, or that it
      names none. */
  lemma ClassifyIgnoresCase(s: string, t: string)
    requires |t| == |s|
    requires forall i :: 0 <= i < |s| ==> t[i] == s[i] || t[i] == UpperChar(s[i])
    ensures ClassifyLabel(t) == ClassifyLabel(s)
  {
    forall i | 0 <= i < |s| ensures Lower(t)[i] == Lower(s)[i] {
      LowerUpperChar(s[i]);
    }
    assert Lower(t) == Lower(s);
  }

  /** The all-capitals and the capitalised spelling of every label classify as
      its aspect; a label in another language classifies as none. */
  lemma ClassifyCapitalLabels()
    ensures forall k: AspectKey :: ClassifyLabel(Upper(Label(k))) == Some(k)
    ensures forall k: AspectKey :: ClassifyLabel(Capitalised(Label(k))) == Some(k)
    ensures ClassifyLabel("judge") == None
  {
    ClassifyCanonicalLabels();
    forall k: AspectKey
      ensures ClassifyLabel(Upper(Label(k))) == Some(k)
      ensures ClassifyLabel(Capitalised(Label(k))) == Some(k)
    {
      ClassifyIgnoresCase(Label(k), Upper(Label(k)));
      ClassifyIgnoresCase(Label(k), Capitalised(Label(k)));
    }
    assert Lower("judge") == "judge";
  }

  /** The accumulator `acc` of the reduce: the slots written so far. */
  type AspectMap = map<AspectKey, JsNumber>

  /** The label of an entry is truthy. */
  predicate LabelTruthy(l: RawLabel) {
    match l
    case LabelText(s) => s != ""
    case LabelFalsy => false
    case LabelTruthyOther => true
  }

  /** The reducer callback at lines 56-70: one entry applied to the accumulator. */
  function Reduce(acc: AspectMap, curr: RawEntry): (r: Outcome<AspectMap>)
    ensures r.Threw? <==> EntryThrows(curr)
    ensures r.Returned? ==>
      forall k :: (k in r.value <==> k in acc || Writes(curr, k))
        && (k in r.value ==> r.value[k] == if Writes(curr, k) then curr.courtAvg.n else acc[k])
  {
    match curr
    case NullishEntry => Threw                                   // `curr.aspect` of null
    case Entry(aspect, avg) =>
      if !LabelTruthy(aspect) || !avg.AverageNumber? then Returned(acc)   // skipped, warned
      else match aspect
        case LabelText(s) =>
          var key := ClassifyLabel(s);
          if key.Some? then Returned(acc[key.value := avg.n]) else Returned(acc)
        case _ => Threw                                          // `toLowerCase` is not a function
  }

  /** `entries.reduce(Reduce, acc)`: a left fold that stops at the first throw. */
  function FoldFrom(acc: AspectMap, entries: seq<RawEntry>): (r: Outcome<AspectMap>)
    ensures r.Returned? ==> acc.Keys <= r.value.Keys
    decreases |entries|
  {
    if entries == [] then Returned(acc)
    else match Reduce(acc, entries[0])
      case Threw => Threw
      case Returned(next) => FoldFrom(next, entries[1..])
  }

  /** `court.assessment.reduce(..., {})`. */
  function FoldAspects(entries: seq<RawEntry>): (r: Outcome<AspectMap>)
    ensures r.Threw? <==> exists i :: 0 <= i < |entries| && EntryThrows(entries[i])
    ensures r.Returned? ==>
      forall k :: (k in r.value <==> LastWrite(entries, k).Some?)
        && (k in r.value ==> r.value[k] == LastWrite(entries, k).value)
  {
    FoldFromSpec(map[], entries);
    FoldFrom(map[], entries)
  }

  // ---------------------------------------------------------------------------
  // Reference definitions, independent of the fold

  /** Processing `e` throws: it is null/undefined, or its label is a truthy
      non-string while its average is a number (so the label reaches `toLowerCase`). */
  predicate EntryThrows(e: RawEntry) {
    e.NullishEntry? || (e.aspect.LabelTruthyOther? && e.courtAvg.AverageNumber?)
  }

  /** `e` is a valid entry whose label names aspect `k`. */
  predicate Writes(e: RawEntry, k: AspectKey) {
    e.Entry? && e.aspect.LabelText? && e.aspect.s != "" && e.courtAvg.AverageNumber?
    && ClassifyLabel(e.aspect.s) == Some(k)
  }

  /** The value of the last entry that writes `k`, scanning from the right. */
  function LastWrite(entries: seq<RawEntry>, k: AspectKey): Option<JsNumber>
    decreases |entries|
  {
    if entries == [] then None
    else
      var n := |entries| - 1;
      if Writes(entries[n], k) then Some(entries[n].courtAvg.n)
      else LastWrite(entries[..n], k)
  }

  /** No value exactly when no entry writes `k`. */
  lemma {:induction false} LastWriteNone(entries: seq<RawEntry>, k: AspectKey)
    ensures LastWrite(entries, k).None? <==> forall i :: 0 <= i < |entries| ==> !Writes(entries[i], k)
    decreases |entries|
  {
    if entries != [] {
      var n := |entries| - 1;
      if !Writes(entries[n], k) {
        LastWriteNone(entries[..n], k);
        assert forall i :: 0 <= i < n ==> entries[..n][i] == entries[i];
      }
    }
  }

  /** A value is that of an entry writing `k` after which no entry writes `k`. */
  lemma {:induction false} LastWriteSome(entries: seq<RawEntry>, k: AspectKey) returns (i: nat)
    requires LastWrite(entries, k).Some?
    ensures i < |entries| && Writes(entries[i], k) && entries[i].courtAvg.n == LastWrite(entries, k).value
    ensures forall j :: i < j < |entries| ==> !Writes(entries[j], k)
    decreases |entries|
  {
    var n := |entries| - 1;
    if Writes(entries[n], k) {
      i := n;
    } else {
      i := LastWriteSome(entries[..n], k);
      assert entries[..n][i] == entries[i];
      assert forall j :: i < j < n ==> entries[..n][j] == entries[j];
    }
  }

  /** The slot `acc` would hold for `k` after the entries, if none of them throws. */
  function SlotAfter(acc: AspectMap, entries: seq<RawEntry>, k: AspectKey): Option<JsNumber> {
    match LastWrite(entries, k)
    case Some(v) => Some(v)
    case None => if k in acc then Some(acc[k]) else None
  }

  // ---------------------------------------------------------------------------
  // The fold against the reference definitions

  lemma {:induction false} LastWriteCons(e: RawEntry, rest: seq<RawEntry>, k: AspectKey)
    ensures LastWrite([e] + rest, k) ==
      (if LastWrite(rest, k).Some? then LastWrite(rest, k)
       else if Writes(e, k) then Some(e.courtAvg.n) else None)
    decreases |rest|
  {
    var s := [e] + rest;
    if rest == [] {
      assert s == [e];
    } else {
      var last := rest[|rest| - 1];
      assert s[|s| - 1] == last;
      assert s[..|s| - 1] == [e] + rest[..|rest| - 1];
      if !Writes(last, k) {
        LastWriteCons(e, rest[..|rest| - 1], k);
      }
    }
  }

  /** The fold throws exactly when some entry throws; otherwise each slot holds
      the last entry written to it (last write wins), or what `acc` held. */
  lemma {:induction false} FoldFromSpec(acc: AspectMap, entries: seq<RawEntry>)
    ensures FoldFrom(acc, entries).Threw? <==> exists i :: 0 <= i < |entries| && EntryThrows(entries[i])
    ensures FoldFrom(acc, entries).Returned? ==>
      forall k :: (k in FoldFrom(acc, entries).value <==> SlotAfter(acc, entries, k).Some?)
        && (k in FoldFrom(acc, entries).value ==>
              FoldFrom(acc, entries).value[k] == SlotAfter(acc, entries, k).value)
    decreases |entries|
  {
    if entries == [] {
    } else {
      var e, rest := entries[0], entries[1..];
      assert entries == [e] + rest;
      match Reduce(acc, e)
      case Threw =>
        assert EntryThrows(entries[0]);
      case Returned(next) =>
        FoldFromSpec(next, rest);
        assert forall i :: 0 <= i < |rest| ==> rest[i] == entries[i + 1];
        forall k: AspectKey
          ensures SlotAfter(next, rest, k) == SlotAfter(acc, entries, k)
        {
          LastWriteCons(e, rest, k);
        }
        if FoldFrom(acc, entries).Threw? {
          var i :| 0 <= i < |rest| && EntryThrows(rest[i]);
          assert EntryThrows(entries[i + 1]);
        } else {
          forall i | 0 <= i < |entries| ensures !EntryThrows(entries[i]) {
            if i > 0 { assert entries[i] == rest[i - 1]; }
          }
        }
    }
  }
}
