/**
 * `find_attachment` and `find_transaction` of src/match.py: scan the
 * candidates in order, return the first one whose reference matches, and
 * otherwise the first candidate with the highest score, provided that score
 * reaches the threshold of 17.
 */
module Search {
  import opened Wrappers
  import opened Records
  import opened Scoring

  /** The score a best candidate needs to be returned. */
  const Threshold := 17

  /** The index of the first reference match. */
  function FirstReference(vs: seq<Verdict>): (r: Option<nat>)
    ensures r.Some? ==> r.value < |vs| && vs[r.value].ReferenceMatch?
    ensures r.Some? ==> forall k :: 0 <= k < r.value ==> !vs[k].ReferenceMatch?
    ensures r.None? ==> forall k :: 0 <= k < |vs| ==> !vs[k].ReferenceMatch?
  {
    if vs == [] then None
    else if vs[0].ReferenceMatch? then Some(0)
    else
      var rest := FirstReference(vs[1..]);
      if rest.Some? then Some(rest.value + 1) else None
  }

  /** `(best_score, best_match)` after the first n candidates: a strictly higher score replaces the best. */
  function BestSoFar(vs: seq<Verdict>, n: nat): (nat, Option<nat>)
    requires n <= |vs|
  {
    if n == 0 then (0, None)
    else
      var (score, index) := BestSoFar(vs, n - 1);
      if vs[n - 1].Scored? && vs[n - 1].score > score then (vs[n - 1].score, Some(n - 1))
      else (score, index)
  }

  /** The candidate the scan returns, by index. */
  function Choose(vs: seq<Verdict>): Option<nat> {
    var first := FirstReference(vs);
    if first.Some? then first
    else
      var (score, index) := BestSoFar(vs, |vs|);
      if score >= Threshold then index else None
  }

  /** The verdict on each attachment for one transaction, in pool order. */
  function AttachmentVerdicts(tx: Transaction, atts: seq<Attachment>): seq<Verdict> {
    if atts == [] then [] else [Assess(tx, atts[0])] + AttachmentVerdicts(tx, atts[1..])
  }

  /** The verdict on each transaction for one attachment, in pool order. */
  function TransactionVerdicts(att: Attachment, txs: seq<Transaction>): seq<Verdict> {
    if txs == [] then [] else [Assess(txs[0], att)] + TransactionVerdicts(att, txs[1..])
  }

  function Pick<C>(pool: seq<C>, index: Option<nat>): Option<C> {
    if index.Some? && index.value < |pool| then Some(pool[index.value]) else None
  }

  /** `v` is the verdict on the pair. */
  predicate Judged(v: Verdict, tx: Transaction, att: Attachment) {
    v == Assess(tx, att)
  }

  /** `vs` are the verdicts on the first |vs| attachments, in pool order. */
  ghost predicate AttachmentsJudged(tx: Transaction, atts: seq<Attachment>, vs: seq<Verdict>) {
    |vs| <= |atts| && forall k {:trigger Judged(vs[k], tx, atts[k])} :: 0 <= k < |vs| ==> Judged(vs[k], tx, atts[k])
  }

  /** `score_candidate` on the next attachment of the pool. */
  method ScoreNextAttachment(tx: Transaction, atts: seq<Attachment>, i: nat, ghost seen: seq<Verdict>) returns (v: Verdict)
    requires i == |seen| < |atts| && AttachmentsJudged(tx, atts, seen)
    ensures AttachmentsJudged(tx, atts, seen + [v])
  {
    v := ScoreCandidate(tx, atts[i]);
    forall k | 0 <= k < |seen| + 1 ensures Judged((seen + [v])[k], tx, atts[k]) {
      if k < |seen| {
        assert Judged(seen[k], tx, atts[k]);
      }
    }
  }

  /** `find_attachment(transaction, attachments)` */
  method FindAttachment(tx: Transaction, atts: seq<Attachment>) returns (r: Option<Attachment>)
    ensures forall vs :: |vs| == |atts| && AttachmentsJudged(tx, atts, vs) ==> r == Pick(atts, Choose(vs))
  {
    var bestMatch: Option<Attachment> := None;
    var bestScore: nat := 0;
    ghost var bestIndex: Option<nat> := None;
    ghost var seen: seq<Verdict> := [];
    for i := 0 to |atts|
      invariant |seen| == i && AttachmentsJudged(tx, atts, seen)
      invariant forall k :: 0 <= k < i ==> !seen[k].ReferenceMatch?
      invariant BestSoFar(seen, i) == (bestScore, bestIndex)
      invariant bestMatch == Pick(atts, bestIndex)
    {
      var v := ScoreNextAttachment(tx, atts, i, seen);
      ghost var before := seen;
      seen := seen + [v];
      assert seen[..i] == before;
      BestSoFarPrefix(seen, i);
      if v.ReferenceMatch? {
        AttachmentReferenceChosen(tx, atts, seen);
        return Some(atts[i]);
      }
      if v.Scored? && v.score > bestScore {
        bestScore := v.score;
        bestMatch := Some(atts[i]);
        bestIndex := Some(i);
      }
    }
    AttachmentBestChosen(tx, atts, seen);
    if bestScore >= Threshold {
      return bestMatch;
    }
    return None;
  }

  /** A reference match among the verdicts seen is the chosen candidate. */
  lemma AttachmentReferenceChosen(tx: Transaction, atts: seq<Attachment>, seen: seq<Verdict>)
    requires 0 < |seen| && AttachmentsJudged(tx, atts, seen)
    requires seen[|seen| - 1].ReferenceMatch?
    requires forall k :: 0 <= k < |seen| - 1 ==> !seen[k].ReferenceMatch?
    ensures forall vs :: |vs| == |atts| && AttachmentsJudged(tx, atts, vs) ==> Choose(vs) == Some(|seen| - 1)
  {
    forall vs | |vs| == |atts| && AttachmentsJudged(tx, atts, vs) ensures Choose(vs) == Some(|seen| - 1) {
      AttachmentsPrefix(tx, atts, vs, seen);
      ChooseReference(vs, seen);
    }
  }

  /** With every candidate seen and no reference match, the best score decides. */
  lemma AttachmentBestChosen(tx: Transaction, atts: seq<Attachment>, seen: seq<Verdict>)
    requires |seen| == |atts| && AttachmentsJudged(tx, atts, seen)
    requires forall k :: 0 <= k < |seen| ==> !seen[k].ReferenceMatch?
    ensures forall vs :: |vs| == |atts| && AttachmentsJudged(tx, atts, vs) ==>
      Choose(vs) == (var (score, index) := BestSoFar(seen, |seen|); if score >= Threshold then index else None)
  {
    forall vs | |vs| == |atts| && AttachmentsJudged(tx, atts, vs)
      ensures Choose(vs) == (var (score, index) := BestSoFar(seen, |seen|); if score >= Threshold then index else None)
    {
      AttachmentsPrefix(tx, atts, vs, seen);
      ChooseBest(vs, seen);
    }
  }

  /** The verdicts on a pool are unique: two judged sequences agree where both are defined. */
  lemma AttachmentsPrefix(tx: Transaction, atts: seq<Attachment>, vs: seq<Verdict>, seen: seq<Verdict>)
    requires AttachmentsJudged(tx, atts, vs) && AttachmentsJudged(tx, atts, seen) && |seen| <= |vs|
    ensures seen == vs[..|seen|]
  {
    forall k | 0 <= k < |seen| ensures seen[k] == vs[k] {
      assert Judged(seen[k], tx, atts[k]) && Judged(vs[k], tx, atts[k]);
    }
  }

  /** The verdict function gives the verdicts on the whole pool. */
  lemma {:induction false} AttachmentVerdictsJudged(tx: Transaction, atts: seq<Attachment>)
    ensures |AttachmentVerdicts(tx, atts)| == |atts| && AttachmentsJudged(tx, atts, AttachmentVerdicts(tx, atts))
  {
    if atts != [] {
      AttachmentVerdictsJudged(tx, atts[1..]);
      var vs := AttachmentVerdicts(tx, atts);
      forall k | 0 <= k < |vs| ensures Judged(vs[k], tx, atts[k]) {
        if k > 0 {
          assert Judged(AttachmentVerdicts(tx, atts[1..])[k - 1], tx, atts[1..][k - 1]);
        }
      }
    }
  }

  /** `vs` are the verdicts on the first |vs| transactions, in pool order. */
  ghost predicate TransactionsJudged(att: Attachment, txs: seq<Transaction>, vs: seq<Verdict>) {
    |vs| <= |txs| && forall k {:trigger Judged(vs[k], txs[k], att)} :: 0 <= k < |vs| ==> Judged(vs[k], txs[k], att)
  }

  /** `score_candidate` on the next transaction of the pool. */
  method ScoreNextTransaction(att: Attachment, txs: seq<Transaction>, i: nat, ghost seen: seq<Verdict>) returns (v: Verdict)
    requires i == |seen| < |txs| && TransactionsJudged(att, txs, seen)
    ensures TransactionsJudged(att, txs, seen + [v])
  {
    v := ScoreCandidate(txs[i], att);
    forall k | 0 <= k < |seen| + 1 ensures Judged((seen + [v])[k], txs[k], att) {
      if k < |seen| {
        assert Judged(seen[k], txs[k], att);
      }
    }
  }

  /** `find_transaction(attachment, transactions)` */
  method FindTransaction(att: Attachment, txs: seq<Transaction>) returns (r: Option<Transaction>)
    ensures forall vs :: |vs| == |txs| && TransactionsJudged(att, txs, vs) ==> r == Pick(txs, Choose(vs))
  {
    var bestMatch: Option<Transaction> := None;
    var bestScore: nat := 0;
    ghost var bestIndex: Option<nat> := None;
    ghost var seen: seq<Verdict> := [];
    for i := 0 to |txs|
      invariant |seen| == i && TransactionsJudged(att, txs, seen)
      invariant forall k :: 0 <= k < i ==> !seen[k].ReferenceMatch?
      invariant BestSoFar(seen, i) == (bestScore, bestIndex)
      invariant bestMatch == Pick(txs, bestIndex)
    {
      var v := ScoreNextTransaction(att, txs, i, seen);
      ghost var before := seen;
      seen := seen + [v];
      assert seen[..i] == before;
      BestSoFarPrefix(seen, i);
      if v.ReferenceMatch? {
        TransactionReferenceChosen(att, txs, seen);
        return Some(txs[i]);
      }
      if v.Scored? && v.score > bestScore {
        bestScore := v.score;
        bestMatch := Some(txs[i]);
        bestIndex := Some(i);
      }
    }
    TransactionBestChosen(att, txs, seen);
    if bestScore >= Threshold {
      return bestMatch;
    }
    return None;
  }

  /** A reference match among the verdicts seen is the chosen candidate. */
  lemma TransactionReferenceChosen(att: Attachment, txs: seq<Transaction>, seen: seq<Verdict>)
    requires 0 < |seen| && TransactionsJudged(att, txs, seen)
    requires seen[|seen| - 1].ReferenceMatch?
    requires forall k :: 0 <= k < |seen| - 1 ==> !seen[k].ReferenceMatch?
    ensures forall vs :: |vs| == |txs| && TransactionsJudged(att, txs, vs) ==> Choose(vs) == Some(|seen| - 1)
  {
    forall vs | |vs| == |txs| && TransactionsJudged(att, txs, vs) ensures Choose(vs) == Some(|seen| - 1) {
      TransactionsPrefix(att, txs, vs, seen);
      ChooseReference(vs, seen);
    }
  }

  /** With every candidate seen and no reference match, the best score decides. */
  lemma TransactionBestChosen(att: Attachment, txs: seq<Transaction>, seen: seq<Verdict>)
    requires |seen| == |txs| && TransactionsJudged(att, txs, seen)
    requires forall k :: 0 <= k < |seen| ==> !seen[k].ReferenceMatch?
    ensures forall vs :: |vs| == |txs| && TransactionsJudged(att, txs, vs) ==>
      Choose(vs) == (var (score, index) := BestSoFar(seen, |seen|); if score >= Threshold then index else None)
  {
    forall vs | |vs| == |txs| && TransactionsJudged(att, txs, vs)
      ensures Choose(vs) == (var (score, index) := BestSoFar(seen, |seen|); if score >= Threshold then index else None)
    {
      TransactionsPrefix(att, txs, vs, seen);
      ChooseBest(vs, seen);
    }
  }

  /** The verdicts on a pool are unique: two judged sequences agree where both are defined. */
  lemma TransactionsPrefix(att: Attachment, txs: seq<Transaction>, vs: seq<Verdict>, seen: seq<Verdict>)
    requires TransactionsJudged(att, txs, vs) && TransactionsJudged(att, txs, seen) && |seen| <= |vs|
    ensures seen == vs[..|seen|]
  {
    forall k | 0 <= k < |seen| ensures seen[k] == vs[k] {
      assert Judged(seen[k], txs[k], att) && Judged(vs[k], txs[k], att);
    }
  }

  /** The verdict function gives the verdicts on the whole pool. */
  lemma {:induction false} TransactionVerdictsJudged(att: Attachment, txs: seq<Transaction>)
    ensures |TransactionVerdicts(att, txs)| == |txs| && TransactionsJudged(att, txs, TransactionVerdicts(att, txs))
  {
    if txs != [] {
      TransactionVerdictsJudged(att, txs[1..]);
      var vs := TransactionVerdicts(att, txs);
      forall k | 0 <= k < |vs| ensures Judged(vs[k], txs[k], att) {
        if k > 0 {
          assert Judged(TransactionVerdicts(att, txs[1..])[k - 1], txs[1..][k - 1], att);
        }
      }
    }
  }

  /** The best so far depends only on the verdicts already seen. */
  lemma {:induction false} BestSoFarPrefix(vs: seq<Verdict>, n: nat)
    requires n <= |vs|
    ensures BestSoFar(vs, n) == BestSoFar(vs[..n], n)
    decreases n
  {
    if n > 0 {
      BestSoFarPrefix(vs, n - 1);
      BestSoFarPrefix(vs[..n], n - 1);
      assert vs[..n][..n - 1] == vs[..n - 1];
    }
  }

  /** A reference match ends the scan: it is chosen when no earlier one was seen. */
  lemma ChooseReference(vs: seq<Verdict>, seen: seq<Verdict>)
    requires 0 < |seen| <= |vs| && seen == vs[..|seen|]
    requires seen[|seen| - 1].ReferenceMatch?
    requires forall k :: 0 <= k < |seen| - 1 ==> !seen[k].ReferenceMatch?
    ensures Choose(vs) == Some(|seen| - 1)
  {
    assert forall k :: 0 <= k < |seen| ==> vs[k] == seen[k];
  }

  /** Without a reference match, the scan keeps the best score and checks it against the threshold. */
  lemma ChooseBest(vs: seq<Verdict>, seen: seq<Verdict>)
    requires |seen| == |vs| && seen == vs[..|seen|]
    requires forall k :: 0 <= k < |seen| ==> !seen[k].ReferenceMatch?
    ensures Choose(vs) == (var (score, index) := BestSoFar(seen, |seen|); if score >= Threshold then index else None)
  {
    assert seen == vs;
  }

  // ---------------------------------------------------------------------
  // What the scan chooses

  /** The best so far is the first maximal positive score among the first n verdicts. */
  lemma {:induction false} BestSoFarIsFirstMax(vs: seq<Verdict>, n: nat)
    requires n <= |vs|
    ensures BestSoFar(vs, n).1.None? ==>
      BestSoFar(vs, n).0 == 0 && forall j :: 0 <= j < n && vs[j].Scored? ==> vs[j].score == 0
    ensures BestSoFar(vs, n).1.Some? ==>
      var i := BestSoFar(vs, n).1.value;
      i < n && vs[i].Scored? && vs[i].score == BestSoFar(vs, n).0 > 0 &&
      forall j :: 0 <= j < i && vs[j].Scored? ==> vs[j].score < vs[i].score
    ensures forall j :: 0 <= j < n && vs[j].Scored? ==> vs[j].score <= BestSoFar(vs, n).0
  {
    if n > 0 {
      BestSoFarIsFirstMax(vs, n - 1);
    }
  }

  /** Nothing is chosen exactly when no candidate matches by reference and none scores 17. */
  lemma ChooseNothing(vs: seq<Verdict>)
    ensures Choose(vs).None? <==>
      forall j :: 0 <= j < |vs| ==> !vs[j].ReferenceMatch? && (vs[j].Scored? ==> vs[j].score < Threshold)
  {
    BestSoFarIsFirstMax(vs, |vs|);
  }

  /** A chosen reference match is the first one in the pool. */
  lemma ChooseFirstReference(vs: seq<Verdict>)
    requires Choose(vs).Some? && Choose(vs).value < |vs| && vs[Choose(vs).value].ReferenceMatch?
    ensures forall j :: 0 <= j < Choose(vs).value ==> !vs[j].ReferenceMatch?
  {
  }

  /**
   * Otherwise the chosen candidate is scored at least 17, no candidate
   * matches by reference, no candidate scores higher and every earlier one
   * scores lower: ties go to the earlier candidate.
   */
  lemma ChooseHighestScore(vs: seq<Verdict>)
    requires Choose(vs).Some?
    ensures Choose(vs).value < |vs|
    ensures !vs[Choose(vs).value].ReferenceMatch? ==>
      var i := Choose(vs).value;
      && vs[i].Scored? && vs[i].score >= Threshold
      && (forall j :: 0 <= j < |vs| ==> !vs[j].ReferenceMatch?)
      && (forall j :: 0 <= j < |vs| && vs[j].Scored? ==> vs[j].score <= vs[i].score)
      && (forall j :: 0 <= j < i && vs[j].Scored? ==> vs[j].score < vs[i].score)
  {
    BestSoFarIsFirstMax(vs, |vs|);
  }

  /**
   * A returned attachment matches the transaction by reference, or has the
   * same amount and either a close date or an exactly equal name.
   */
  lemma AcceptedAttachment(tx: Transaction, atts: seq<Attachment>, vs: seq<Verdict>)
    requires |vs| == |atts| && AttachmentsJudged(tx, atts, vs) && Choose(vs).Some?
    ensures Choose(vs).value < |atts|
    ensures var att := atts[Choose(vs).value];
      ReferencesMatch(tx, att) ||
      (AmountsMatch(tx, att) && (CloseDiff(tx, att).Some? || NameScoreOf(tx, att) == Some(ExactNamePoints)))
  {
    ChooseHighestScore(vs);
    var i := Choose(vs).value;
    assert Judged(vs[i], tx, atts[i]);
    Accepted(tx, atts[i]);
  }

  /** The same for a returned transaction. */
  lemma AcceptedTransaction(att: Attachment, txs: seq<Transaction>, vs: seq<Verdict>)
    requires |vs| == |txs| && TransactionsJudged(att, txs, vs) && Choose(vs).Some?
    ensures Choose(vs).value < |txs|
    ensures var tx := txs[Choose(vs).value];
      ReferencesMatch(tx, att) ||
      (AmountsMatch(tx, att) && (CloseDiff(tx, att).Some? || NameScoreOf(tx, att) == Some(ExactNamePoints)))
  {
    ChooseHighestScore(vs);
    var i := Choose(vs).value;
    assert Judged(vs[i], txs[i], att);
    Accepted(txs[i], att);
  }

  lemma Accepted(tx: Transaction, att: Attachment)
    requires Assess(tx, att).ReferenceMatch? || (Assess(tx, att).Scored? && Assess(tx, att).score >= Threshold)
    ensures ReferencesMatch(tx, att) ||
      (AmountsMatch(tx, att) && (CloseDiff(tx, att).Some? || NameScoreOf(tx, att) == Some(ExactNamePoints)))
  {
    if !Assess(tx, att).ReferenceMatch? {
      ScoredCandidate(tx, att);
      BelowThreshold(tx, att);
      NameScoreMeaning(tx.contact, PresentValues(NameFields(att)));
    }
  }

  /**
   * With a single candidate on each side, both searches see the same
   * verdict, so `find_attachment` returns the attachment exactly when
   * `find_transaction` returns the transaction, and that is when the pair
   * matches by reference or scores at least 17.
   */
  lemma SingleCandidateMirror(tx: Transaction, att: Attachment)
    ensures var vs := [Assess(tx, att)];
      && AttachmentsJudged(tx, [att], vs) && TransactionsJudged(att, [tx], vs)
      && (Pick([att], Choose(vs)) == Some(att) <==> Pick([tx], Choose(vs)) == Some(tx))
      && (Pick([att], Choose(vs)).Some? <==>
            Assess(tx, att).ReferenceMatch? || (Assess(tx, att).Scored? && Assess(tx, att).score >= Threshold))
  {
    var vs := [Assess(tx, att)];
    assert Judged(vs[0], tx, [att][0]);
    assert Judged(vs[0], [tx][0], att);
    LoneCandidate(vs[0]);
  }

  /** A lone candidate is returned exactly when it matches by reference or scores at least 17. */
  lemma LoneCandidate(v: Verdict)
    ensures Choose([v]) == (if v.ReferenceMatch? || (v.Scored? && v.score >= Threshold) then Some(0) else None)
  {
    BestSoFarIsFirstMax([v], 1);
  }
}
