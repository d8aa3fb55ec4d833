/**
 Receivers are handed out in one pass over the lot. One pass is enough because notes refer
 backward, and the test receivers are enough exactly when no two documents share one.
 */
module SetReceivers {
  import opened Wrappers
  import opened SetFill

  // ---------------------------------------------------------------- what the pass does to each document

  /** A visit changes the document it visits and no other. */
  lemma {:induction false} UnvisitedStay(issuer: Issuer, usable: seq<Party>, docs: seq<Doc>, n: nat, j: nat)
    requires n <= j < |docs|
    ensures VisitFirst(issuer, usable, docs, n).docs[j] == docs[j]
  {
    if n > 0 {
      UnvisitedStay(issuer, usable, docs, n - 1, j);
    }
  }

  lemma {:induction false} VisitedStay(issuer: Issuer, usable: seq<Party>, docs: seq<Doc>, n: nat, j: nat)
    requires j < n <= |docs|
    ensures VisitFirst(issuer, usable, docs, n).docs[j] == VisitFirst(issuer, usable, docs, j + 1).docs[j]
  {
    if n > j + 1 {
      VisitedStay(issuer, usable, docs, n - 1, j);
    }
  }

  /** How many of the first `n` documents need a test receiver. */
  function NeededIn(docs: seq<Doc>, n: nat): nat
    requires n <= |docs|
  {
    if n == 0 then 0 else NeededIn(docs, n - 1) + if NeedsCustomer(docs[n - 1]) then 1 else 0
  }

  lemma {:induction false} PassCounts(issuer: Issuer, usable: seq<Party>, docs: seq<Doc>, n: nat)
    requires n <= |docs|
    ensures VisitFirst(issuer, usable, docs, n).needed == NeededIn(docs, n)
    ensures VisitFirst(issuer, usable, docs, n).next == if usable == [] then 0 else NeededIn(docs, n)
  {
    if n > 0 {
      PassCounts(issuer, usable, docs, n - 1);
      UnvisitedStay(issuer, usable, docs, n - 1, n - 1);
    }
  }

  predicate Follows(docs: seq<Doc>, i: nat)
    requires i < |docs|
  {
    Inherits(docs[i]) && 0 < FirstLotRef(RefsOf(docs[i])) <= |docs|
  }

  /** What document `i` ends up as, in terms of the definition and of the finished lot. */
  function Settled(issuer: Issuer, usable: seq<Party>, docs: seq<Doc>, done: seq<Doc>, i: nat): Doc
    requires i < |docs| == |done|
  {
    var doc := docs[i];
    if IsInternalTransfer(doc) then
      doc.(receiver := Some(IssuerAsReceiver(issuer)),
           transport := if doc.transport.Some? then doc.transport else Some(OwnWarehouse(issuer)))
    else if NeedsCustomer(doc) && usable != [] then doc.(receiver := Some(usable[NeededIn(docs, i) % |usable|]))
    else if Follows(docs, i) then doc.(receiver := Some(ReceiverOf(done[FirstLotRef(RefsOf(doc)) - 1])))
    else doc
  }

  /** Notes refer to documents before them. */
  ghost predicate Backward(docs: seq<Doc>) {
    forall i :: 0 <= i < |docs| && Inherits(docs[i]) ==> FirstLotRef(RefsOf(docs[i])) <= i
  }

  /** The finished lot, document by document: a note has what the document it modifies has. */
  lemma PassSettles(issuer: Issuer, usable: seq<Party>, docs: seq<Doc>, i: nat)
    requires Backward(docs) && i < |docs|
    ensures var done := VisitFirst(issuer, usable, docs, |docs|).docs;
            done[i] == Settled(issuer, usable, docs, done, i)
  {
    var s, done := VisitFirst(issuer, usable, docs, i), VisitFirst(issuer, usable, docs, |docs|).docs;
    UnvisitedStay(issuer, usable, docs, i, i);
    VisitedStay(issuer, usable, docs, |docs|, i);
    PassCounts(issuer, usable, docs, i);
    assert VisitFirst(issuer, usable, docs, i + 1) == Visit(issuer, usable, s, i);
    if Follows(docs, i) {
      var t := FirstLotRef(RefsOf(docs[i])) - 1;
      VisitedStay(issuer, usable, docs, i, t);
      VisitedStay(issuer, usable, docs, |docs|, t);
    }
  }

  // ---------------------------------------------------------------- one pass is enough

  /** The document at the end of a chain of notes without a receiver of their own. */
  function Root(docs: seq<Doc>, i: nat): (r: nat)
    requires Backward(docs) && i < |docs|
    ensures r <= i && !Follows(docs, r)
  {
    if Follows(docs, i) then Root(docs, FirstLotRef(RefsOf(docs[i])) - 1) else i
  }

  /** Every note without a receiver of its own gets the one of the document its chain starts from,
      however long the chain, and changes in nothing else. */
  lemma {:induction false} OnePassSuffices(issuer: Issuer, usable: seq<Party>, docs: seq<Doc>, i: nat)
    requires Backward(docs) && i < |docs|
    ensures var done := VisitFirst(issuer, usable, docs, |docs|).docs;
            && (Follows(docs, i) ==> done[i] == docs[i].(receiver := Some(ReceiverOf(done[Root(docs, i)]))))
            && ReceiverOf(done[i]) == ReceiverOf(done[Root(docs, i)])
    decreases i
  {
    PassSettles(issuer, usable, docs, i);
    if Follows(docs, i) {
      OnePassSuffices(issuer, usable, docs, FirstLotRef(RefsOf(docs[i])) - 1);
    }
  }

  /** A note that does not refer backward gets what its document had in the definition: one pass is
      enough for it exactly when the pass leaves that document's receiver as it was. */
  lemma ForwardNotesExactly(issuer: Issuer, usable: seq<Party>, docs: seq<Doc>, i: nat)
    requires i < |docs| && Follows(docs, i) && FirstLotRef(RefsOf(docs[i])) > i
    ensures var done, t := VisitFirst(issuer, usable, docs, |docs|).docs, FirstLotRef(RefsOf(docs[i])) - 1;
            && ReceiverOf(done[i]) == ReceiverOf(docs[t])
            && (ReceiverOf(done[i]) == ReceiverOf(done[t]) <==> ReceiverOf(done[t]) == ReceiverOf(docs[t]))
  {
    var t := FirstLotRef(RefsOf(docs[i])) - 1;
    var s := VisitFirst(issuer, usable, docs, i);
    UnvisitedStay(issuer, usable, docs, i, i);
    UnvisitedStay(issuer, usable, docs, i, t);
    VisitedStay(issuer, usable, docs, |docs|, i);
    assert VisitFirst(issuer, usable, docs, i + 1) == Visit(issuer, usable, s, i);
  }

  /** With a reference forward the note can be left without a receiver. */
  lemma ForwardReferencesMiss(issuer: Issuer, party: Party, note: Doc, invoice: Doc)
    requires note.docType == 61 && note.receiver == None && note.references == Some([Ref(None, Some(2), None, None, None, Some(1))])
    requires invoice.docType == 33 && invoice.receiver == None
    ensures var done := VisitFirst(issuer, [party], [note, invoice], 2).docs;
            done[0].receiver == Some(NOBODY) && done[1].receiver == Some(party)
  {
    var docs := [note, invoice];
    assert FirstLotRef(RefsOf(note)) == 2;
    var first := VisitFirst(issuer, [party], docs, 1);
    assert first == Visit(issuer, [party], VisitFirst(issuer, [party], docs, 0), 0);
    assert first.docs == [note.(receiver := Some(NOBODY)), invoice] && first.next == 0;
    assert VisitFirst(issuer, [party], docs, 2) == Visit(issuer, [party], first, 1);
  }

  // ---------------------------------------------------------------- distinct receivers

  ghost predicate DistinctRuts(parties: seq<Party>) {
    forall i, j :: 0 <= i < j < |parties| ==> parties[i].rut != parties[j].rut
  }

  lemma {:induction false} NeededGrows(docs: seq<Doc>, i: nat, j: nat)
    requires i <= j <= |docs|
    ensures NeededIn(docs, i) <= NeededIn(docs, j)
    ensures i < j && NeedsCustomer(docs[i]) ==> NeededIn(docs, i) < NeededIn(docs, j)
  {
    if i < j {
      NeededGrows(docs, i, j - 1);
    }
  }

  /** Some document is the one that needs a receiver after exactly `k` others. */
  lemma {:induction false} NthNeeder(docs: seq<Doc>, n: nat, k: nat) returns (i: nat)
    requires n <= |docs| && k < NeededIn(docs, n)
    ensures i < n && NeedsCustomer(docs[i]) && NeededIn(docs, i) == k
  {
    if NeededIn(docs, n - 1) == k {
      i := n - 1;
    } else {
      i := NthNeeder(docs, n - 1, k);
    }
  }

  /** Two documents that need a receiver and end up with one RUT. */
  ghost predicate Share(docs: seq<Doc>, done: seq<Doc>, i: nat, j: nat) {
    && i < j < |docs| == |done|
    && NeedsCustomer(docs[i]) && NeedsCustomer(docs[j])
    && ReceiverOf(done[i]).rut == ReceiverOf(done[j]).rut
  }

  lemma NeederGets(issuer: Issuer, usable: seq<Party>, docs: seq<Doc>, i: nat)
    requires Backward(docs) && usable != [] && i < |docs| && NeedsCustomer(docs[i])
    ensures ReceiverOf(VisitFirst(issuer, usable, docs, |docs|).docs[i]) == usable[NeededIn(docs, i) % |usable|]
  {
    PassSettles(issuer, usable, docs, i);
  }

  lemma SmallRemainder(k: nat, n: nat)
    requires k < n
    ensures k % n == k
  {
  }

  lemma NeederGetsItsOwn(issuer: Issuer, usable: seq<Party>, docs: seq<Doc>, i: nat)
    requires Backward(docs) && i < |docs| && NeedsCustomer(docs[i]) && NeededIn(docs, i) < |usable|
    ensures ReceiverOf(VisitFirst(issuer, usable, docs, |docs|).docs[i]) == usable[NeededIn(docs, i)]
  {
    hide VisitFirst, Backward, NeededIn, NeedsCustomer;
    NeederGets(issuer, usable, docs, i);
    SmallRemainder(NeededIn(docs, i), |usable|);
  }

  lemma EnoughMeansDistinct(issuer: Issuer, usable: seq<Party>, docs: seq<Doc>, i: nat, j: nat)
    requires Backward(docs) && usable != [] && DistinctRuts(usable) && NeededIn(docs, |docs|) <= |usable|
    ensures !Share(docs, VisitFirst(issuer, usable, docs, |docs|).docs, i, j)
  {
    hide VisitFirst, Backward, NeededIn, NeedsCustomer;
    if i < j < |docs| && NeedsCustomer(docs[i]) && NeedsCustomer(docs[j]) {
      NeededGrows(docs, i, j);
      NeededGrows(docs, j, |docs|);
      NeederGetsItsOwn(issuer, usable, docs, i);
      NeederGetsItsOwn(issuer, usable, docs, j);
    }
  }

  lemma TooFewMeansShared(issuer: Issuer, usable: seq<Party>, docs: seq<Doc>) returns (i: nat, j: nat)
    requires Backward(docs) && usable != [] && NeededIn(docs, |docs|) > |usable|
    ensures Share(docs, VisitFirst(issuer, usable, docs, |docs|).docs, i, j)
  {
    i := NthNeeder(docs, |docs|, 0);
    j := NthNeeder(docs, |docs|, |usable|);
    hide VisitFirst, Backward, NeededIn, NeedsCustomer;
    if j <= i {
      NeededGrows(docs, j, i);
    }
    NeederGets(issuer, usable, docs, i);
    NeederGets(issuer, usable, docs, j);
    assert |usable| % |usable| == 0;
  }

  /** Given distinct test receivers, no two documents share one exactly when there are enough:
      the note about repeated receivers is raised exactly when some are. */
  lemma EnoughReceiversExactly(issuer: Issuer, usable: seq<Party>, docs: seq<Doc>)
    requires Backward(docs) && usable != [] && DistinctRuts(usable)
    ensures var pass := VisitFirst(issuer, usable, docs, |docs|);
            pass.needed <= |usable| <==> !exists i: nat, j: nat :: Share(docs, pass.docs, i, j)
  {
    var pass := VisitFirst(issuer, usable, docs, |docs|);
    PassCounts(issuer, usable, docs, |docs|);
    hide VisitFirst, NeededIn, Backward, DistinctRuts, Share;
    if pass.needed <= |usable| {
      forall i: nat, j: nat ensures !Share(docs, pass.docs, i, j) {
        EnoughMeansDistinct(issuer, usable, docs, i, j);
      }
    } else {
      var i, j := TooFewMeansShared(issuer, usable, docs);
    }
  }

  // ---------------------------------------------------------------- a second pass

  /** The test receiver that falls to the document that needs one after `k` others. */
  function Handed(usable: seq<Party>, k: nat): Party {
    if usable == [] then NOBODY else usable[k % |usable|]
  }

  /** Document `i` needs a receiver and is handed the SII, which counts as none. */
  predicate ServedWithSii(usable: seq<Party>, docs: seq<Doc>, i: nat)
    requires i < |docs|
  {
    usable != [] && NeedsCustomer(docs[i]) && Handed(usable, NeededIn(docs, i)).rut == Some(SII_RUT)
  }

  /** How many of the first `n` documents are handed the SII. */
  function SiiIn(usable: seq<Party>, docs: seq<Doc>, n: nat): nat
    requires n <= |docs|
  {
    if n == 0 then 0 else SiiIn(usable, docs, n - 1) + if ServedWithSii(usable, docs, n - 1) then 1 else 0
  }

  /** Each document handed the SII would be handed it again if those alone were served. */
  ghost predicate HandedAlike(usable: seq<Party>, docs: seq<Doc>) {
    forall i: nat :: i < |docs| && ServedWithSii(usable, docs, i) ==>
      Handed(usable, SiiIn(usable, docs, i)) == Handed(usable, NeededIn(docs, i))
  }

  ghost predicate AllHaveRut(usable: seq<Party>) {
    forall p <- usable :: HasRut(p)
  }

  /** The finished lot. */
  function Done(issuer: Issuer, usable: seq<Party>, docs: seq<Doc>): (r: seq<Doc>)
    ensures |r| == |docs|
  {
    VisitFirst(issuer, usable, docs, |docs|).docs
  }

  lemma DoneKeepsReferences(issuer: Issuer, usable: seq<Party>, docs: seq<Doc>)
    requires Backward(docs)
    ensures Backward(Done(issuer, usable, docs))
    ensures forall i :: 0 <= i < |docs| ==>
              var done := Done(issuer, usable, docs)[i];
              done.docType == docs[i].docType && done.transferType == docs[i].transferType && done.references == docs[i].references
  {
    forall i: nat | i < |docs|
      ensures var done := Done(issuer, usable, docs)[i];
              done.docType == docs[i].docType && done.transferType == docs[i].transferType && done.references == docs[i].references
      ensures Inherits(Done(issuer, usable, docs)[i]) ==> FirstLotRef(RefsOf(docs[i])) <= i
    {
      PassSettles(issuer, usable, docs, i);
    }
  }

  /** After the pass exactly the documents handed the SII still need a receiver. */
  lemma StillNeeding(issuer: Issuer, usable: seq<Party>, docs: seq<Doc>, i: nat)
    requires Backward(docs) && AllHaveRut(usable) && usable != [] && i < |docs|
    ensures NeedsCustomer(Done(issuer, usable, docs)[i]) <==> ServedWithSii(usable, docs, i)
  {
    PassSettles(issuer, usable, docs, i);
    if NeedsCustomer(docs[i]) {
      assert usable[NeededIn(docs, i) % |usable|] in usable;
    }
    hide VisitFirst, NeededIn;
  }

  lemma {:induction false} StillNeedingCounted(issuer: Issuer, usable: seq<Party>, docs: seq<Doc>, n: nat)
    requires Backward(docs) && AllHaveRut(usable) && usable != [] && n <= |docs|
    ensures NeededIn(Done(issuer, usable, docs), n) == SiiIn(usable, docs, n)
  {
    hide Done, ServedWithSii, NeedsCustomer;
    if n > 0 {
      StillNeedingCounted(issuer, usable, docs, n - 1);
      StillNeeding(issuer, usable, docs, n - 1);
    }
  }

  /** A second pass leaves a document of the finished lot as it is unless it hands it another receiver. */
  lemma VisitAgain(issuer: Issuer, usable: seq<Party>, docs: seq<Doc>, s: Pass, i: nat)
    requires Backward(docs) && i < |docs| && s.docs == Done(issuer, usable, docs)
    requires NeedsCustomer(s.docs[i]) && usable != [] ==> s.docs[i].receiver == Some(usable[s.next % |usable|])
    ensures Visit(issuer, usable, s, i).docs == s.docs
  {
    PassSettles(issuer, usable, docs, i);
    hide VisitFirst, NeededIn, FirstLotRef;
  }

  /** What a document handed the SII has, and what the second pass would hand it. */
  lemma SiiReceivers(issuer: Issuer, usable: seq<Party>, docs: seq<Doc>, i: nat)
    requires Backward(docs) && AllHaveRut(usable) && usable != [] && i < |docs|
    ensures var done := Done(issuer, usable, docs);
            ServedWithSii(usable, docs, i) ==>
              && NeedsCustomer(done[i])
              && done[i].receiver == Some(Handed(usable, NeededIn(docs, i)))
              && usable[NeededIn(done, i) % |usable|] == Handed(usable, SiiIn(usable, docs, i))
  {
    StillNeeding(issuer, usable, docs, i);
    StillNeedingCounted(issuer, usable, docs, i);
    PassSettles(issuer, usable, docs, i);
    hide VisitFirst, NeededIn, SiiIn, Inherits;
  }

  lemma {:induction false} HandedAlikeStays(issuer: Issuer, usable: seq<Party>, docs: seq<Doc>, n: nat)
    requires Backward(docs) && AllHaveRut(usable) && HandedAlike(usable, docs) && n <= |docs|
    ensures var done := Done(issuer, usable, docs);
            VisitFirst(issuer, usable, done, n).docs == done
    decreases n
  {
    hide NeedsCustomer, ServedWithSii, Done, NeededIn, SiiIn, Visit, Handed;
    var done := Done(issuer, usable, docs);
    if n > 0 {
      HandedAlikeStays(issuer, usable, docs, n - 1);
      var s := VisitFirst(issuer, usable, done, n - 1);
      if usable != [] {
        PassCounts(issuer, usable, done, n - 1);
        StillNeeding(issuer, usable, docs, n - 1);
        SiiReceivers(issuer, usable, docs, n - 1);
      }
      VisitAgain(issuer, usable, docs, s, n - 1);
    }
  }

  /** A second pass over a finished lot changes nothing exactly when each document handed the SII would
      be handed it again. Without the SII among the receivers no document is. */
  lemma SecondPassStaysExactly(issuer: Issuer, usable: seq<Party>, docs: seq<Doc>)
    requires Backward(docs) && AllHaveRut(usable)
    ensures var done := Done(issuer, usable, docs);
            Done(issuer, usable, done) == done <==> HandedAlike(usable, docs)
  {
    var done := Done(issuer, usable, docs);
    if HandedAlike(usable, docs) {
      HandedAlikeStays(issuer, usable, docs, |docs|);
    }
    if Done(issuer, usable, done) == done {
      DoneKeepsReferences(issuer, usable, docs);
      hide NeedsCustomer, ServedWithSii, NeededIn, SiiIn, VisitFirst, Handed;
      forall i: nat | i < |docs| && ServedWithSii(usable, docs, i)
        ensures Handed(usable, SiiIn(usable, docs, i)) == Handed(usable, NeededIn(docs, i))
      {
        assert usable != [] by { ServedMeansUsable(usable, docs, i); }
        SiiReceivers(issuer, usable, docs, i);
        PassSettles(issuer, usable, done, i);
        assert NeedsCustomer(done[i]) && !IsInternalTransfer(done[i]) by { NeedingIsNoTransfer(done[i]); }
      }
    }
  }

  lemma ServedMeansUsable(usable: seq<Party>, docs: seq<Doc>, i: nat)
    requires i < |docs| && ServedWithSii(usable, docs, i)
    ensures usable != []
  {
  }

  lemma NeedingIsNoTransfer(doc: Doc)
    ensures NeedsCustomer(doc) ==> !IsInternalTransfer(doc)
  {
  }

  /** All this depends on the documents only by which of them need a receiver. */
  lemma {:induction false} SameNeedsSameCounts(usable: seq<Party>, xs: seq<Doc>, ys: seq<Doc>, n: nat)
    requires |xs| == |ys| && n <= |xs| && forall i :: 0 <= i < |xs| ==> NeedsCustomer(xs[i]) == NeedsCustomer(ys[i])
    ensures NeededIn(xs, n) == NeededIn(ys, n) && SiiIn(usable, xs, n) == SiiIn(usable, ys, n)
    ensures n < |xs| ==> ServedWithSii(usable, xs, n) == ServedWithSii(usable, ys, n)
  {
    hide NeedsCustomer;
    if n > 0 {
      SameNeedsSameCounts(usable, xs, ys, n - 1);
    }
  }

  lemma SameNeedsHandedAlike(usable: seq<Party>, xs: seq<Doc>, ys: seq<Doc>)
    requires |xs| == |ys| && forall i :: 0 <= i < |xs| ==> NeedsCustomer(xs[i]) == NeedsCustomer(ys[i])
    ensures HandedAlike(usable, xs) <==> HandedAlike(usable, ys)
  {
    forall i: nat | i < |xs|
      ensures NeededIn(xs, i) == NeededIn(ys, i) && SiiIn(usable, xs, i) == SiiIn(usable, ys, i)
      ensures ServedWithSii(usable, xs, i) == ServedWithSii(usable, ys, i)
    {
      SameNeedsSameCounts(usable, xs, ys, i);
    }
    hide NeedsCustomer, ServedWithSii, NeededIn, SiiIn, Handed;
  }

  // ---------------------------------------------------------------- when that is

  lemma {:induction false} NoneServedBefore(usable: seq<Party>, docs: seq<Doc>, p: nat, n: nat)
    requires DistinctRuts(usable) && p < |usable| && usable[p].rut == Some(SII_RUT)
    requires n <= |docs| && NeededIn(docs, n) <= p
    ensures SiiIn(usable, docs, n) == 0
  {
    if n > 0 {
      NoneServedBefore(usable, docs, p, n - 1);
      var k := NeededIn(docs, n - 1);
      if NeedsCustomer(docs[n - 1]) {
        SmallRemainder(k, |usable|);
      }
    }
  }

  /** The first after the whole list was handed out once has one SII before it. */
  lemma {:induction false} OneServedBefore(usable: seq<Party>, docs: seq<Doc>, p: nat, n: nat)
    requires DistinctRuts(usable) && p < |usable| && usable[p].rut == Some(SII_RUT)
    requires n <= |docs| && p < NeededIn(docs, n) <= p + |usable|
    ensures SiiIn(usable, docs, n) == 1
  {
    var k := NeededIn(docs, n - 1);
    if !NeedsCustomer(docs[n - 1]) {
      OneServedBefore(usable, docs, p, n - 1);
    } else if k == p {
      SmallRemainder(p, |usable|);
      NoneServedBefore(usable, docs, p, n - 1);
    } else {
      OneServedBefore(usable, docs, p, n - 1);
      RemainderOnceRound(k, p, |usable|);
    }
  }

  lemma RemainderOnceRound(k: nat, p: nat, n: nat)
    requires p < n && p < k < p + n
    ensures k % n != p
  {
    if k < n {
      SmallRemainder(k, n);
    } else {
      assert k == (k - n) + n;
      assert k % n == k - n;
    }
  }

  lemma ServedAtExactly(usable: seq<Party>, docs: seq<Doc>, p: nat, i: nat)
    requires DistinctRuts(usable) && p < |usable| && usable[p].rut == Some(SII_RUT) && i < |docs|
    ensures ServedWithSii(usable, docs, i) <==> NeedsCustomer(docs[i]) && NeededIn(docs, i) % |usable| == p
  {
    hide NeedsCustomer, NeededIn;
  }

  /** With distinct receivers, the SII at position `p` of them, that is when no document gets as far
      as it, or it comes first and the list is handed out at most once or holds nothing else. */
  lemma HandedAlikeExactly(usable: seq<Party>, docs: seq<Doc>, p: nat)
    requires DistinctRuts(usable) && p < |usable| && usable[p].rut == Some(SII_RUT)
    ensures var needed := NeededIn(docs, |docs|);
            HandedAlike(usable, docs) <==> needed <= p || (p == 0 && (|usable| == 1 || needed <= |usable|))
  {
    var needed, n := NeededIn(docs, |docs|), |usable|;
    hide NeedsCustomer, ServedWithSii, NeededIn, SiiIn;
    if needed <= p || (p == 0 && (n == 1 || needed <= n)) {
      forall i: nat | i < |docs| && ServedWithSii(usable, docs, i)
        ensures Handed(usable, SiiIn(usable, docs, i)) == Handed(usable, NeededIn(docs, i))
      {
        ServedAtExactly(usable, docs, p, i);
        NeededGrows(docs, i, |docs|);
        if n > 1 {
          SmallRemainder(NeededIn(docs, i), n);
          NoneServedBefore(usable, docs, p, i);
        }
      }
    } else if p > 0 {
      var i := NthNeeder(docs, |docs|, p);
      SmallRemainder(p, n);
      ServedAtExactly(usable, docs, p, i);
      NoneServedBefore(usable, docs, p, i);
      assert Handed(usable, SiiIn(usable, docs, i)) == usable[0];
    } else {
      var i := NthNeeder(docs, |docs|, n);
      assert n % n == 0;
      ServedAtExactly(usable, docs, p, i);
      OneServedBefore(usable, docs, p, i);
      SmallRemainder(1, n);
      assert Handed(usable, SiiIn(usable, docs, i)) == usable[1];
    }
  }

  ghost predicate NoneIsTheSii(usable: seq<Party>) {
    forall p <- usable :: p.rut != Some(SII_RUT)
  }

  /** Without the SII among the receivers it always is. */
  lemma WithoutSiiHandedAlike(usable: seq<Party>, docs: seq<Doc>)
    requires NoneIsTheSii(usable)
    ensures HandedAlike(usable, docs)
  {
    hide NeedsCustomer, NeededIn, SiiIn;
    forall i: nat | i < |docs| ensures !ServedWithSii(usable, docs, i) {
      if usable != [] {
        assert usable[NeededIn(docs, i) % |usable|] in usable;
      }
    }
  }

  /** With a test receiver that is the SII itself a second pass hands out receivers again. */
  lemma SiiReceiverMoves(issuer: Issuer, sii: Party, other: Party, a: Doc, b: Doc)
    requires sii.rut == Some(SII_RUT) && HasRut(other) && other.rut != Some(SII_RUT)
    requires a.docType == b.docType == 33 && a.receiver == b.receiver == None
    ensures var usable := [other, sii];
            var done := VisitFirst(issuer, usable, [a, b], 2).docs;
            done[1].receiver == Some(sii) && VisitFirst(issuer, usable, done, 2).docs[1].receiver == Some(other)
  {
    var usable := [other, sii];
    var start := VisitFirst(issuer, usable, [a, b], 0);
    var one := Visit(issuer, usable, start, 0);
    var done := [a.(receiver := Some(other)), b.(receiver := Some(sii))];
    assert VisitFirst(issuer, usable, [a, b], 1) == one == Pass([done[0], b], 1, 1);
    assert VisitFirst(issuer, usable, [a, b], 2) == Visit(issuer, usable, one, 1) == Pass(done, 2, 2);
    var again := VisitFirst(issuer, usable, done, 1);
    assert again == Visit(issuer, usable, VisitFirst(issuer, usable, done, 0), 0) == Pass(done, 0, 0);
    assert VisitFirst(issuer, usable, done, 2) == Visit(issuer, usable, again, 1);
  }
}
