/**
 * How one candidate is judged against the record being reconciled: the
 * body of the candidate loop that `find_attachment` and `find_transaction`
 * of src/match.py share. A candidate is taken at once on a reference
 * match, skipped on a different amount or too few signals, and otherwise
 * scored from amount, date proximity and counterparty name.
 */
module Scoring {
  import opened Wrappers
  import opened Text
  import opened Normalize
  import opened Names
  import opened Dates
  import opened Records

  /** Points for an equal absolute amount. */
  const AmountPoints := 10
  /** The widest date gap that still counts as a date signal. */
  const DateWindow := 10
  /** Points for a counterparty name that normalises to the same string. */
  const ExactNamePoints := 7
  /** Points for a counterparty name that only matches fuzzily. */
  const FuzzyNamePoints := 4

  /** What the loop body does with one candidate. */
  datatype Verdict =
    | ReferenceMatch         // returned immediately
    | Rejected               // `continue`
    | Scored(score: nat)     // competes for the best score

  /** The gap in days to `date` when it is within the window, None otherwise. */
  function CloseGap(txDate: Option<string>, date: string): Option<nat> {
    if DatesClose(txDate, Some(date), DateWindow) then Gap(txDate, Some(date)) else None
  }

  /** The close gaps of a list of dates, position by position. */
  function CloseGaps(txDate: Option<string>, dates: seq<string>): (r: seq<Option<nat>>)
    ensures |r| == |dates| && forall i :: 0 <= i < |dates| ==> r[i] == CloseGap(txDate, dates[i])
  {
    if dates == [] then [] else [CloseGap(txDate, dates[0])] + CloseGaps(txDate, dates[1..])
  }

  /** One step of the date loop: a close gap replaces the best so far when it is smaller. */
  function Better(best: Option<nat>, gap: Option<nat>): Option<nat> {
    if gap.Some? && (best.None? || gap.value < best.value) then gap else best
  }

  /** The date loop run from the state `best` over the remaining gaps. */
  function Fold(gaps: seq<Option<nat>>, best: Option<nat>): Option<nat> {
    if gaps == [] then best else Fold(gaps[1..], Better(best, gaps[0]))
  }

  /**
   * `best_date_diff` after the date loop, None when no date was close
   * (`date_matched` false).
   */
  function BestDateDiff(txDate: Option<string>, dates: seq<string>): Option<nat> {
    Fold(CloseGaps(txDate, dates), None)
  }

  /** The index of the first name that `agrees` accepts (see `FirstMatchSpec`). */
  function FirstMatch(agrees: string -> bool, names: seq<string>): (r: Option<nat>)
    ensures r.Some? ==> r.value < |names|
  {
    if names == [] then None
    else if agrees(names[0]) then Some(0)
    else
      var rest := FirstMatch(agrees, names[1..]);
      if rest.Some? then Some(rest.value + 1) else None
  }

  /** `names_match(tx_contact, att_name)` as a test on the attachment name. */
  function AgreesWith(contact: Option<string>): string -> bool {
    name => NamesAgree(contact, Some(name))
  }

  /** `max(3, 7 - (best_date_diff // 2))` */
  function DatePoints(diff: nat): (r: nat)
    ensures 3 <= r <= 7
  {
    if 7 - diff / 2 < 3 then 3 else 7 - diff / 2
  }

  /** 7 when the names normalise to the same string, 4 otherwise. */
  function NamePoints(contact: Option<string>, name: string): (r: nat)
    ensures r == ExactNamePoints || r == FuzzyNamePoints
  {
    if NormalizeName(contact) == NormalizeName(Some(name)) then ExactNamePoints else FuzzyNamePoints
  }

  /** Both normalized references are non-empty and equal; an absent reference never matches. */
  predicate ReferencesMatch(tx: Transaction, att: Attachment)
    ensures ReferencesMatch(tx, att) ==> tx.reference.Some? && Fields(att).reference.Some?
  {
    var txRef, attRef := NormalizeRefnum(tx.reference), NormalizeRefnum(Fields(att).reference);
    txRef != "" && attRef != "" && txRef == attRef
  }

  predicate AmountsMatch(tx: Transaction, att: Attachment) {
    AttachmentAmount(att) == TransactionAmount(tx)
  }

  /** The name points of the first matching counterparty, None when none matches. */
  function NameScore(contact: Option<string>, names: seq<string>): Option<nat> {
    var found := FirstMatch(AgreesWith(contact), names);
    if found.Some? then Some(NamePoints(contact, names[found.value])) else None
  }

  /**
   * The decision once the signals are known: a reference match wins, a
   * different amount rejects, fewer than two signals reject, a date-only
   * match must be same-day, and otherwise the points add up.
   */
  function Decide(refsMatch: bool, amountsMatch: bool, best: Option<nat>, nameScore: Option<nat>): (r: Verdict)
    ensures r.ReferenceMatch? <==> refsMatch
    ensures r.Scored? ==> amountsMatch && (nameScore.Some? || best == Some(0))
  {
    if refsMatch then ReferenceMatch
    else if !amountsMatch then Rejected
    else
      var signals := 1 + (if best.Some? then 1 else 0) + (if nameScore.Some? then 1 else 0);
      if signals < 2 then Rejected
      else if nameScore.None? && best.Some? && best.value > 0 then Rejected
      else Scored(AmountPoints + (if best.Some? then DatePoints(best.value) else 0) + nameScore.GetOr(0))
  }

  /** The smallest close gap between the transaction date and the attachment dates. */
  function CloseDiff(tx: Transaction, att: Attachment): Option<nat> {
    BestDateDiff(tx.date, PresentValues(DateFields(att)))
  }

  /** The name points of the first attachment counterparty that matches the transaction contact. */
  function NameScoreOf(tx: Transaction, att: Attachment): Option<nat> {
    NameScore(tx.contact, PresentValues(NameFields(att)))
  }

  /** The verdict on one (transaction, attachment) pair. */
  function Assess(tx: Transaction, att: Attachment): Verdict {
    Decide(ReferencesMatch(tx, att), AmountsMatch(tx, att), CloseDiff(tx, att), NameScoreOf(tx, att))
  }

  /**
   * One pass of the candidate loop: reference check, amount gate, the date
   * loop keeping the smallest close gap, the name loop stopping at the first
   * matching counterparty, then the two confidence gates.
   */
  method ScoreCandidate(tx: Transaction, att: Attachment) returns (v: Verdict)
    ensures v == Assess(tx, att)
  {
    var txRef := NormalizeRefnum(tx.reference);
    var attRef := NormalizeRefnum(Fields(att).reference);
    if txRef != "" && attRef != "" && txRef == attRef {
      return ReferenceMatch;
    }
    var attAmount := Fields(att).totalAmount.GetOr(0);
    if Abs(attAmount) != TransactionAmount(tx) {
      return Rejected;
    }
    v := ScoreSignals(tx, att);
  }

  /**
   * The rest of the loop body, once the amounts agree: one signal for the
   * amount, one for a close date, one for a matching name, then the gates.
   */
  method ScoreSignals(tx: Transaction, att: Attachment) returns (v: Verdict)
    ensures v == Decide(false, true, CloseDiff(tx, att), NameScoreOf(tx, att))
  {
    var score: nat := AmountPoints;
    var signals := 1;

    var dateMatched, bestDateDiff := DateSignal(tx, att);
    if dateMatched {
      signals := signals + 1;
      score := score + DatePoints(bestDateDiff);
    }

    var nameMatched, nameScore := NameSignal(tx, att);
    if nameMatched {
      signals := signals + 1;
      score := score + nameScore;
    }

    if signals < 2 {
      return Rejected;
    }
    if !nameMatched && dateMatched {
      if bestDateDiff > 0 {
        return Rejected;
      }
    }
    return Scored(score);
  }

  /** The date signal: the attachment dates, then the date loop over them. */
  method DateSignal(tx: Transaction, att: Attachment) returns (dateMatched: bool, bestDateDiff: nat)
    ensures (if dateMatched then Some(bestDateDiff) else None) == CloseDiff(tx, att)
  {
    var attDates := GetAttachmentDates(att);
    dateMatched, bestDateDiff := DateLoop(tx.date, attDates);
  }

  /** The name signal: the attachment counterparties, then the name loop over them. */
  method NameSignal(tx: Transaction, att: Attachment) returns (nameMatched: bool, nameScore: nat)
    ensures (if nameMatched then Some(nameScore) else None) == NameScoreOf(tx, att)
  {
    var attNames := GetCounterpartyInfo(att);
    nameMatched, nameScore := NameLoop(tx.contact, attNames);
  }

  /**
   * The date loop: every close date updates the smallest gap seen; the
   * flag records whether any date was close (`best_date_diff` stays at
   * infinity otherwise, here left at 0 and never read).
   */
  method DateLoop(txDate: Option<string>, attDates: seq<string>) returns (dateMatched: bool, bestDateDiff: nat)
    ensures (if dateMatched then Some(bestDateDiff) else None) == BestDateDiff(txDate, attDates)
  {
    dateMatched, bestDateDiff := false, 0;
    ghost var gaps := CloseGaps(txDate, attDates);
    for i := 0 to |attDates|
      invariant Fold(gaps[i..], if dateMatched then Some(bestDateDiff) else None) == Fold(gaps, None)
    {
      assert gaps[i..][1..] == gaps[i + 1..];
      if DatesClose(txDate, Some(attDates[i]), DateWindow) {
        var diff := Gap(txDate, Some(attDates[i])).value;
        if !dateMatched || diff < bestDateDiff {
          bestDateDiff := diff;
        }
        dateMatched := true;
      }
    }
  }

  /**
   * The name loop: the first counterparty name that matches the contact
   * sets the name points (7 when the normal forms agree, else 4) and stops
   * the loop.
   */
  method NameLoop(contact: Option<string>, attNames: seq<string>) returns (nameMatched: bool, nameScore: nat)
    ensures (if nameMatched then Some(nameScore) else None) == NameScore(contact, attNames)
  {
    var found := FirstMatchingName(contact, attNames);
    if found.Some? {
      NameScoreFound(contact, attNames, found.value);
      return true, NamePoints(contact, attNames[found.value]);
    }
    NameScoreNone(contact, attNames);
    return false, 0;
  }

  /** The loop proper: the index of the first counterparty name that matches the contact. */
  method FirstMatchingName(contact: Option<string>, attNames: seq<string>) returns (found: Option<nat>)
    ensures found.Some? ==> found.value < |attNames| && NamesAgree(contact, Some(attNames[found.value]))
    ensures forall k :: 0 <= k < |attNames| && (found.None? || k < found.value) ==> !NamesAgree(contact, Some(attNames[k]))
  {
    for j := 0 to |attNames|
      invariant forall k :: 0 <= k < j ==> !NamesAgree(contact, Some(attNames[k]))
    {
      var agree := NamesMatch(contact, Some(attNames[j]));
      if agree {
        return Some(j);
      }
    }
    return None;
  }

  /** The first name that matches the contact decides the name points. */
  lemma NameScoreFound(contact: Option<string>, names: seq<string>, j: nat)
    requires j < |names| && NamesAgree(contact, Some(names[j]))
    requires forall k :: 0 <= k < j ==> !NamesAgree(contact, Some(names[k]))
    ensures NameScore(contact, names) == Some(NamePoints(contact, names[j]))
  {
    var agrees := AgreesWith(contact);
    assert forall k :: 0 <= k < j ==> !agrees(names[k]);
    FirstMatchAt(agrees, names, j);
  }

  /** No name matching the contact means no name points. */
  lemma NameScoreNone(contact: Option<string>, names: seq<string>)
    requires forall k :: 0 <= k < |names| ==> !NamesAgree(contact, Some(names[k]))
    ensures NameScore(contact, names) == None
  {
    FirstMatchSpec(AgreesWith(contact), names);
  }

  /** A name accepted at j with none accepted before it is the one found. */
  lemma FirstMatchAt(agrees: string -> bool, names: seq<string>, j: nat)
    requires j < |names| && agrees(names[j])
    requires forall k :: 0 <= k < j ==> !agrees(names[k])
    ensures FirstMatch(agrees, names) == Some(j)
  {
    FirstMatchSpec(agrees, names);
  }

  /** The index found is that of the first accepted name; None means that no name is accepted. */
  lemma {:induction false} FirstMatchSpec(agrees: string -> bool, names: seq<string>)
    ensures var r := FirstMatch(agrees, names);
      && (r.Some? ==> agrees(names[r.value]))
      && (r.Some? ==> forall k :: 0 <= k < r.value ==> !agrees(names[k]))
      && (r.None? ==> forall k :: 0 <= k < |names| ==> !agrees(names[k]))
  {
    if names != [] && !agrees(names[0]) {
      var rest := names[1..];
      FirstMatchSpec(agrees, rest);
      forall k | 1 <= k < |names| ensures names[k] == rest[k - 1] {
      }
    }
  }

  // ---------------------------------------------------------------------
  // The date loop finds the smallest gap within the window

  /** The fold ends with the least of its start value and the present gaps. */
  lemma {:induction false} FoldIsLeast(gaps: seq<Option<nat>>, best: Option<nat>)
    ensures Fold(gaps, best).Some? <==> best.Some? || exists i :: 0 <= i < |gaps| && gaps[i].Some?
    ensures Fold(gaps, best).Some? ==> Fold(gaps, best) == best || Fold(gaps, best) in gaps
    ensures best.Some? ==> Fold(gaps, best).value <= best.value
    ensures forall i :: 0 <= i < |gaps| && gaps[i].Some? ==> Fold(gaps, best).value <= gaps[i].value
  {
    if gaps != [] {
      var next := Better(best, gaps[0]);
      FoldIsLeast(gaps[1..], next);
      assert forall i :: 1 <= i < |gaps| ==> gaps[i] == gaps[1..][i - 1];
    }
  }

  /**
   * `best_date_diff` is present exactly when some attachment date is within
   * 10 days of the transaction date, and then it is the smallest such gap.
   */
  lemma BestDateDiffIsSmallestGap(txDate: Option<string>, dates: seq<string>)
    ensures BestDateDiff(txDate, dates).Some? <==>
      exists i :: 0 <= i < |dates| && DatesClose(txDate, Some(dates[i]), DateWindow)
    ensures BestDateDiff(txDate, dates).Some? ==>
      BestDateDiff(txDate, dates).value <= DateWindow &&
      exists i :: 0 <= i < |dates| && DatesClose(txDate, Some(dates[i]), DateWindow) &&
        Gap(txDate, Some(dates[i])) == BestDateDiff(txDate, dates)
    ensures forall i :: 0 <= i < |dates| && DatesClose(txDate, Some(dates[i]), DateWindow) ==>
      BestDateDiff(txDate, dates).value <= Gap(txDate, Some(dates[i])).value
  {
    var gaps := CloseGaps(txDate, dates);
    FoldIsLeast(gaps, None);
    if BestDateDiff(txDate, dates).Some? {
      var k :| 0 <= k < |gaps| && gaps[k] == BestDateDiff(txDate, dates);
      assert DatesClose(txDate, Some(dates[k]), DateWindow);
    }
  }

  // ---------------------------------------------------------------------
  // What a verdict means

  /** The date points fall from 7 to 3 as the gap widens; a gap of 0 or 1 day earns 7. */
  lemma DatePointsRange(diff: nat)
    ensures 3 <= DatePoints(diff) <= 7
    ensures DatePoints(diff) == 7 <==> diff <= 1
    ensures DatePoints(diff) == 3 <==> diff >= 8
  {
  }

  /** A wider gap never earns more date points. */
  lemma DatePointsMonotone(narrow: nat, wide: nat)
    requires narrow <= wide
    ensures DatePoints(wide) <= DatePoints(narrow)
  {
    assert narrow / 2 <= wide / 2 by {
      HalfMonotone(narrow, wide);
    }
  }

  lemma HalfMonotone(a: nat, b: nat)
    requires a <= b
    ensures a / 2 <= b / 2
  {
    var qa, qb := a / 2, b / 2;
    assert a == 2 * qa + a % 2 && b == 2 * qb + b % 2;
  }

  /** A name counts exactly when some counterparty matches; its points are 7 or 4. */
  lemma NameScoreMeaning(contact: Option<string>, names: seq<string>)
    ensures NameScore(contact, names).Some? <==>
      exists i :: 0 <= i < |names| && NamesAgree(contact, Some(names[i]))
    ensures NameScore(contact, names).Some? ==>
      NameScore(contact, names).value in {ExactNamePoints, FuzzyNamePoints}
  {
    var found := FirstMatch(AgreesWith(contact), names);
    FirstMatchSpec(AgreesWith(contact), names);
    if found.None? {
      assert forall i :: 0 <= i < |names| ==> !NamesAgree(contact, Some(names[i]));
    } else {
      assert NamesAgree(contact, Some(names[found.value]));
    }
  }

  /**
   * Once the amounts agree, a candidate is scored exactly when a name
   * matched or the only other signal is a same-day date.
   */
  lemma DecideScored(best: Option<nat>, name: Option<nat>)
    ensures Decide(false, true, best, name).Scored? <==> name.Some? || best == Some(0)
  {
  }

  /** The score of an accepted candidate, given date and name points in range. */
  lemma DecideScore(best: Option<nat>, name: Option<nat>)
    requires name.Some? ==> name.value in {ExactNamePoints, FuzzyNamePoints}
    requires Decide(false, true, best, name).Scored?
    ensures 14 <= Decide(false, true, best, name).score <= 24
    ensures name.None? ==> best == Some(0) && Decide(false, true, best, name).score == 17
    ensures Decide(false, true, best, name).score < 17 <==> best.None? && name == Some(FuzzyNamePoints)
  {
    if best.Some? {
      DatePointsRange(best.value);
    }
  }

  /**
   * A scored candidate has equal amounts and no reference match, at least
   * a close date or a matching name, a same-day date when no name matched,
   * and a score between 14 and 24.
   */
  lemma ScoredCandidate(tx: Transaction, att: Attachment)
    requires Assess(tx, att).Scored?
    ensures !ReferencesMatch(tx, att) && AmountsMatch(tx, att)
    ensures CloseDiff(tx, att).Some? || NameScoreOf(tx, att).Some?
    ensures NameScoreOf(tx, att).None? ==> CloseDiff(tx, att) == Some(0) && Assess(tx, att).score == 17
    ensures 14 <= Assess(tx, att).score <= 24
  {
    NameScoreMeaning(tx.contact, PresentValues(NameFields(att)));
    DecideScore(CloseDiff(tx, att), NameScoreOf(tx, att));
  }

  /**
   * Only a candidate whose sole signal besides the amount is a fuzzy name
   * match scores below the acceptance threshold of 17.
   */
  lemma BelowThreshold(tx: Transaction, att: Attachment)
    requires Assess(tx, att).Scored?
    ensures Assess(tx, att).score < 17 <==>
      CloseDiff(tx, att).None? && NameScoreOf(tx, att) == Some(FuzzyNamePoints)
  {
    NameScoreMeaning(tx.contact, PresentValues(NameFields(att)));
    DecideScore(CloseDiff(tx, att), NameScoreOf(tx, att));
  }

  /**
   * When the amounts agree, a candidate with a matching name is scored, and
   * one without is scored only with a same-day date.
   */
  lemma ScoredWhen(tx: Transaction, att: Attachment)
    requires !ReferencesMatch(tx, att) && AmountsMatch(tx, att)
    ensures Assess(tx, att).Scored? <==>
      NameScoreOf(tx, att).Some? || CloseDiff(tx, att) == Some(0)
  {
    DecideScored(CloseDiff(tx, att), NameScoreOf(tx, att));
  }

  /**
   * The reference check fires on references written differently, "0 7a"
   * and "7A", and decides the verdict whatever the amounts, dates and names.
   */
  lemma ReferenceShortcut(tx: Transaction, att: Attachment)
    requires tx.reference == Some("0 7a") && Fields(att).reference == Some("7A")
    ensures ReferencesMatch(tx, att) && Assess(tx, att) == ReferenceMatch
  {
    SpacedReference();
  }

  /** A reference that is all zeros and spaces never yields a reference match. */
  lemma ZeroReferenceNeverMatches(tx: Transaction, att: Attachment)
    requires tx.reference.Some?
    requires forall i :: 0 <= i < |tx.reference.value| ==> tx.reference.value[i] == '0' || tx.reference.value[i] == ' '
    ensures !ReferencesMatch(tx, att)
  {
    ZeroReferenceIsAbsent(tx.reference.value);
  }
}
