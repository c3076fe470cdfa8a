/**
 * Jet B-labelling. The jets of `alljets` are visited in order; each one scans
 * the B hadrons not yet consumed by an earlier jet and takes the nearest one
 * (the first of several at equal distance). A jet whose nearest free hadron
 * is closer than 0.4 becomes a central b-jet when |rapidity| < 2.4 and a
 * forward b-jet otherwise, and consumes that hadron; every other jet is light.
 */
module JetLabelling {
  import opened Objects
  import opened Sequences

  const BMatchDR: real := 0.4
  const CentralRapMax: real := 2.4
  /** The distance a scan starts from; a hadron at this distance or farther is never chosen. */
  const NoMatchDR: real := 1000.0

  datatype JetKind = Central | Forward | Light

  /** The class given to one jet, with the index of the B hadron a b-jet consumes. */
  datatype BLabel = CentralB(hadron: int) | ForwardB(hadron: int) | LightJet
  {
    function Kind(): JetKind
    {
      match this
      case CentralB(_) => Central
      case ForwardB(_) => Forward
      case LightJet => Light
    }

    function Hadron(): int
    {
      if LightJet? then -1 else hadron
    }
  }

  /** Outcome of scanning the hadrons for one jet: the smallest distance met and the index it was met at (-1 for none). */
  datatype Scan = Scan(dRmin: real, found: int)

  predicate Consumed(b: int, centralIdx: seq<int>, forwardIdx: seq<int>)
  {
    b in centralIdx || b in forwardIdx
  }

  /** The scan of the first `n` hadrons for jet `j`, skipping consumed ones and updating only on a strictly smaller distance. */
  function NearestFree(j: Jet, bs: seq<UnstableParticle>, n: nat, centralIdx: seq<int>, forwardIdx: seq<int>, phys: Physics): Scan
    requires n <= |bs|
  {
    if n == 0 then Scan(NoMatchDR, -1)
    else
      var prev := NearestFree(j, bs, n - 1, centralIdx, forwardIdx, phys);
      var dR := phys.deltaR(bs[n - 1].particle.mom, j.mom);
      if !Consumed(n - 1, centralIdx, forwardIdx) && dR < prev.dRmin then Scan(dR, n - 1) else prev
  }

  function LabelJet(j: Jet, bs: seq<UnstableParticle>, centralIdx: seq<int>, forwardIdx: seq<int>, phys: Physics): BLabel
  {
    var s := NearestFree(j, bs, |bs|, centralIdx, forwardIdx, phys);
    if s.dRmin < BMatchDR && Abs(j.mom.rap) < CentralRapMax then CentralB(s.found)
    else if s.dRmin < BMatchDR then ForwardB(s.found)
    else LightJet
  }

  function Kinds(labels: seq<BLabel>): seq<JetKind>
  {
    seq(|labels|, i requires 0 <= i < |labels| => labels[i].Kind())
  }

  function Hadrons(labels: seq<BLabel>): seq<int>
  {
    seq(|labels|, i requires 0 <= i < |labels| => labels[i].Hadron())
  }

  /** The hadron indices consumed by central b-jets, in jet order. */
  function CentralIndices(labels: seq<BLabel>): seq<int>
  {
    Select(Hadrons(labels), Kinds(labels), Central)
  }

  /** The hadron indices consumed by forward b-jets, in jet order. */
  function ForwardIndices(labels: seq<BLabel>): seq<int>
  {
    Select(Hadrons(labels), Kinds(labels), Forward)
  }

  /** The label of every jet, each computed against the hadrons consumed by the jets before it. */
  function JetLabels(jets: seq<Jet>, bs: seq<UnstableParticle>, phys: Physics): (labels: seq<BLabel>)
    ensures |labels| == |jets|
  {
    if jets == [] then []
    else
      var prev := JetLabels(jets[..|jets| - 1], bs, phys);
      prev + [LabelJet(jets[|jets| - 1], bs, CentralIndices(prev), ForwardIndices(prev), phys)]
  }

  lemma LabelsSnoc(jets: seq<Jet>, j: Jet, bs: seq<UnstableParticle>, phys: Physics)
    ensures var labels := JetLabels(jets, bs, phys);
            var l := LabelJet(j, bs, CentralIndices(labels), ForwardIndices(labels), phys);
            && JetLabels(jets + [j], bs, phys) == labels + [l]
            && (forall k :: Select(jets + [j], Kinds(labels + [l]), k)
                         == Select(jets, Kinds(labels), k) + (if l.Kind() == k then [j] else []))
            && CentralIndices(labels + [l]) == CentralIndices(labels) + (if l.CentralB? then [l.hadron] else [])
            && ForwardIndices(labels + [l]) == ForwardIndices(labels) + (if l.ForwardB? then [l.hadron] else [])
  {
    var labels := JetLabels(jets, bs, phys);
    var l := LabelJet(j, bs, CentralIndices(labels), ForwardIndices(labels), phys);
    assert (jets + [j])[..|jets|] == jets;
    assert Kinds(labels + [l]) == Kinds(labels) + [l.Kind()];
    assert Hadrons(labels + [l]) == Hadrons(labels) + [l.Hadron()];
    forall k
      ensures Select(jets + [j], Kinds(labels + [l]), k) == Select(jets, Kinds(labels), k) + (if l.Kind() == k then [j] else [])
    {
      SelectSnoc(jets, Kinds(labels), j, l.Kind(), k);
    }
    SelectSnoc(Hadrons(labels), Kinds(labels), l.Hadron(), l.Kind(), Central);
    SelectSnoc(Hadrons(labels), Kinds(labels), l.Hadron(), l.Kind(), Forward);
  }

  /** The scan of all hadrons for one jet, skipping those whose index is already in either index list. */
  method ScanHadrons(j: Jet, bs: seq<UnstableParticle>, centralIdx: seq<int>, forwardIdx: seq<int>, phys: Physics)
    returns (dRmin: real, bfound: int)
    ensures Scan(dRmin, bfound) == NearestFree(j, bs, |bs|, centralIdx, forwardIdx, phys)
  {
    dRmin := NoMatchDR;
    var bindex := 0;
    bfound := -1;
    while bindex < |bs|
      invariant 0 <= bindex <= |bs|
      invariant Scan(dRmin, bfound) == NearestFree(j, bs, bindex, centralIdx, forwardIdx, phys)
    {
      var notusedbhad := true;
      if bindex in centralIdx {
        notusedbhad := false;
      }
      if bindex in forwardIdx {
        notusedbhad := false;
      }
      if notusedbhad {
        var dR := phys.deltaR(bs[bindex].particle.mom, j.mom);
        if dR < dRmin {
          dRmin := dR;
          bfound := bindex;
        }
      }
      bindex := bindex + 1;
    }
  }

  /** One iteration of the labelling loop, stated on the lists the loop appends to. */
  lemma LabelJetsStep(jets: seq<Jet>, i: nat, bs: seq<UnstableParticle>, phys: Physics, dRmin: real, bfound: int)
    requires i < |jets|
    requires var labels := JetLabels(jets[..i], bs, phys);
             Scan(dRmin, bfound) == NearestFree(jets[i], bs, |bs|, CentralIndices(labels), ForwardIndices(labels), phys)
    ensures var labels := JetLabels(jets[..i], bs, phys);
            var next := JetLabels(jets[..i + 1], bs, phys);
            var j := jets[i];
            var isCentral := dRmin < BMatchDR && Abs(j.mom.rap) < CentralRapMax;
            var isForward := dRmin < BMatchDR && Abs(j.mom.rap) >= CentralRapMax;
            && Select(jets[..i + 1], Kinds(next), Central) == Select(jets[..i], Kinds(labels), Central) + (if isCentral then [j] else [])
            && Select(jets[..i + 1], Kinds(next), Forward) == Select(jets[..i], Kinds(labels), Forward) + (if isForward then [j] else [])
            && Select(jets[..i + 1], Kinds(next), Light) == Select(jets[..i], Kinds(labels), Light) + (if dRmin >= BMatchDR then [j] else [])
            && CentralIndices(next) == CentralIndices(labels) + (if isCentral then [bfound] else [])
            && ForwardIndices(next) == ForwardIndices(labels) + (if isForward then [bfound] else [])
  {
    var j := jets[i];
    var labels := JetLabels(jets[..i], bs, phys);
    var l := LabelJet(j, bs, CentralIndices(labels), ForwardIndices(labels), phys);
    LabelsSnoc(jets[..i], j, bs, phys);
    assert jets[..i + 1] == jets[..i] + [j];
    assert l == if dRmin < BMatchDR && Abs(j.mom.rap) < CentralRapMax then CentralB(bfound)
                else if dRmin < BMatchDR then ForwardB(bfound) else LightJet;
  }

  /** The labelling loop: splits `jets` into central b-jets, forward b-jets and light jets, recording consumed hadrons. */
  method LabelJets(jets: seq<Jet>, bs: seq<UnstableParticle>, phys: Physics)
    returns (central: seq<Jet>, forward: seq<Jet>, light: seq<Jet>, centralIdx: seq<int>, forwardIdx: seq<int>)
    ensures var labels := JetLabels(jets, bs, phys);
            && central == Select(jets, Kinds(labels), Central)
            && forward == Select(jets, Kinds(labels), Forward)
            && light == Select(jets, Kinds(labels), Light)
            && centralIdx == CentralIndices(labels)
            && forwardIdx == ForwardIndices(labels)
  {
    central, forward, light, centralIdx, forwardIdx := [], [], [], [], [];
    for i := 0 to |jets|
      invariant var labels := JetLabels(jets[..i], bs, phys);
                && central == Select(jets[..i], Kinds(labels), Central)
                && forward == Select(jets[..i], Kinds(labels), Forward)
                && light == Select(jets[..i], Kinds(labels), Light)
                && centralIdx == CentralIndices(labels)
                && forwardIdx == ForwardIndices(labels)
    {
      var j := jets[i];
      var dRmin, bfound := ScanHadrons(j, bs, centralIdx, forwardIdx, phys);
      LabelJetsStep(jets, i, bs, phys, dRmin, bfound);
      if dRmin < BMatchDR && Abs(j.mom.rap) < CentralRapMax {
        central := central + [j];
        centralIdx := centralIdx + [bfound];
      }
      if dRmin < BMatchDR && Abs(j.mom.rap) >= CentralRapMax {
        forward := forward + [j];
        forwardIdx := forwardIdx + [bfound];
      }
      if dRmin >= BMatchDR {
        light := light + [j];
      }
    }
    assert jets[..|jets|] == jets;
  }

  /**
   * The scan finds the first minimum among the free hadrons: its distance is
   * at most that of every free hadron and strictly below that of every free
   * hadron before it; it finds nothing (and keeps 1000) exactly when no free
   * hadron is closer than 1000.
   */
  lemma {:induction false} NearestIsFirstMinimum(j: Jet, bs: seq<UnstableParticle>, n: nat, centralIdx: seq<int>, forwardIdx: seq<int>, phys: Physics)
    requires n <= |bs|
    ensures var s := NearestFree(j, bs, n, centralIdx, forwardIdx, phys);
            && s.dRmin <= 1000.0
            && (s.found == -1 <==> s.dRmin == 1000.0)
            && (s.found != -1 ==>
                  0 <= s.found < n && !Consumed(s.found, centralIdx, forwardIdx) &&
                  s.dRmin == phys.deltaR(bs[s.found].particle.mom, j.mom))
            && (forall k :: 0 <= k < n && !Consumed(k, centralIdx, forwardIdx) ==>
                  s.dRmin <= phys.deltaR(bs[k].particle.mom, j.mom))
            && (forall k :: 0 <= k < s.found && !Consumed(k, centralIdx, forwardIdx) ==>
                  s.dRmin < phys.deltaR(bs[k].particle.mom, j.mom))
  {
    if n > 0 {
      NearestIsFirstMinimum(j, bs, n - 1, centralIdx, forwardIdx, phys);
    }
  }

  lemma {:induction false} JetLabelsPrefix(jets: seq<Jet>, bs: seq<UnstableParticle>, phys: Physics, i: nat)
    requires i <= |jets|
    ensures JetLabels(jets, bs, phys)[..i] == JetLabels(jets[..i], bs, phys)
  {
    if i < |jets| {
      var n := |jets| - 1;
      JetLabelsPrefix(jets[..n], bs, phys, i);
      assert jets[..n][..i] == jets[..i];
    } else {
      assert jets[..i] == jets;
    }
  }

  /**
   * The label of one jet against given consumed lists: light iff every free
   * hadron is at distance >= 0.4; otherwise it consumes a valid, free hadron
   * closer than 0.4 which is the first of the nearest free hadrons, and it is
   * central iff |rapidity| < 2.4.
   */
  lemma LabelJetChoice(j: Jet, bs: seq<UnstableParticle>, cIdx: seq<int>, fIdx: seq<int>, phys: Physics)
    ensures var l := LabelJet(j, bs, cIdx, fIdx, phys);
            && (l.LightJet? <==> forall k :: 0 <= k < |bs| && !Consumed(k, cIdx, fIdx) ==>
                                   phys.deltaR(bs[k].particle.mom, j.mom) >= 0.4)
            && (!l.LightJet? ==>
                  && 0 <= l.hadron < |bs|
                  && !Consumed(l.hadron, cIdx, fIdx)
                  && phys.deltaR(bs[l.hadron].particle.mom, j.mom) < 0.4
                  && (forall k :: 0 <= k < |bs| && !Consumed(k, cIdx, fIdx) ==>
                        phys.deltaR(bs[l.hadron].particle.mom, j.mom) <= phys.deltaR(bs[k].particle.mom, j.mom))
                  && (forall k :: 0 <= k < l.hadron && !Consumed(k, cIdx, fIdx) ==>
                        phys.deltaR(bs[l.hadron].particle.mom, j.mom) < phys.deltaR(bs[k].particle.mom, j.mom))
                  && (l.CentralB? <==> Abs(j.mom.rap) < 2.4))
  {
    NearestIsFirstMinimum(j, bs, |bs|, cIdx, fIdx, phys);
  }

  /** The label of jet `i` is computed against the hadrons consumed by jets 0..i-1. */
  lemma GreedyChoice(jets: seq<Jet>, bs: seq<UnstableParticle>, phys: Physics, i: nat)
    requires i < |jets|
    ensures var labels := JetLabels(jets, bs, phys);
            labels[i] == LabelJet(jets[i], bs, CentralIndices(labels[..i]), ForwardIndices(labels[..i]), phys)
  {
    var labels := JetLabels(jets, bs, phys);
    JetLabelsPrefix(jets, bs, phys, i + 1);
    JetLabelsPrefix(jets, bs, phys, i);
    assert jets[..i + 1][..i] == jets[..i];
    assert labels[..i + 1] == labels[..i] + [labels[i]];
  }

  lemma {:induction false} KindsPartition(ks: seq<JetKind>)
    ensures Count(ks, Central) + Count(ks, Forward) + Count(ks, Light) == |ks|
  {
    if ks != [] {
      var front := ks[..|ks| - 1];
      KindsPartition(front);
      assert Count(ks, Central) == Count(front, Central) + (if ks[|ks| - 1] == Central then 1 else 0);
      assert Count(ks, Forward) == Count(front, Forward) + (if ks[|ks| - 1] == Forward then 1 else 0);
      assert Count(ks, Light) == Count(front, Light) + (if ks[|ks| - 1] == Light then 1 else 0);
    }
  }

  /**
   * The three jet lists partition the jets: their lengths add up to the
   * number of jets, each jet sits in the list of its own class at its rank,
   * and ranks grow with positions (each list keeps the input order).
   */
  lemma JetsPartitioned(jets: seq<Jet>, bs: seq<UnstableParticle>, phys: Physics)
    ensures var labels := JetLabels(jets, bs, phys);
            var ks := Kinds(labels);
            && |Select(jets, ks, Central)| + |Select(jets, ks, Forward)| + |Select(jets, ks, Light)| == |jets|
            && (forall i :: 0 <= i < |jets| ==>
                  Rank(ks, i) < |Select(jets, ks, ks[i])| && Select(jets, ks, ks[i])[Rank(ks, i)] == jets[i])
            && (forall i, k :: 0 <= i < k < |jets| && ks[i] == ks[k] ==> Rank(ks, i) < Rank(ks, k))
  {
    var labels := JetLabels(jets, bs, phys);
    var ks := Kinds(labels);
    KindsPartition(ks);
    forall i | 0 <= i < |jets|
      ensures Rank(ks, i) < |Select(jets, ks, ks[i])| && Select(jets, ks, ks[i])[Rank(ks, i)] == jets[i]
    {
      SelectAt(jets, ks, i);
    }
    forall i, k | 0 <= i < k < |jets| && ks[i] == ks[k]
      ensures Rank(ks, i) < Rank(ks, k)
    {
      RankGrows(ks, i, k);
    }
  }

  /**
   * The index lists run parallel to the b-jet lists: they are as long as
   * their jet lists, and the entry at a b-jet's rank is the hadron that jet
   * consumed. Light jets consume nothing.
   */
  lemma IndicesParallel(jets: seq<Jet>, bs: seq<UnstableParticle>, phys: Physics)
    ensures var labels := JetLabels(jets, bs, phys);
            var ks := Kinds(labels);
            && |CentralIndices(labels)| == |Select(jets, ks, Central)|
            && |ForwardIndices(labels)| == |Select(jets, ks, Forward)|
            && (forall i :: 0 <= i < |jets| && labels[i].CentralB? ==>
                  Rank(ks, i) < |CentralIndices(labels)| && CentralIndices(labels)[Rank(ks, i)] == labels[i].hadron)
            && (forall i :: 0 <= i < |jets| && labels[i].ForwardB? ==>
                  Rank(ks, i) < |ForwardIndices(labels)| && ForwardIndices(labels)[Rank(ks, i)] == labels[i].hadron)
  {
    var labels := JetLabels(jets, bs, phys);
    var ks := Kinds(labels);
    forall i | 0 <= i < |jets| && !labels[i].LightJet?
      ensures Rank(ks, i) < |Select(Hadrons(labels), ks, ks[i])|
      ensures Select(Hadrons(labels), ks, ks[i])[Rank(ks, i)] == labels[i].hadron
    {
      SelectAt(Hadrons(labels), ks, i);
    }
  }

  lemma NoRepeatsSnoc(s: seq<int>, x: int)
    requires NoRepeats(s) && x !in s
    ensures NoRepeats(s + [x])
  {
  }

  /**
   * No B hadron is consumed twice: every consumed index is a valid index
   * into the hadron list, neither index list repeats an index, and no index
   * appears in both.
   */
  lemma {:induction false} ConsumedHadronsDistinct(jets: seq<Jet>, bs: seq<UnstableParticle>, phys: Physics)
    ensures var labels := JetLabels(jets, bs, phys);
            var c := CentralIndices(labels);
            var f := ForwardIndices(labels);
            && (forall x :: x in c ==> 0 <= x < |bs|)
            && (forall x :: x in f ==> 0 <= x < |bs|)
            && NoRepeats(c) && NoRepeats(f)
            && (forall x :: x in c ==> x !in f)
  {
    if jets != [] {
      var n := |jets| - 1;
      var j := jets[n];
      ConsumedHadronsDistinct(jets[..n], bs, phys);
      var labels := JetLabels(jets[..n], bs, phys);
      var c := CentralIndices(labels);
      var f := ForwardIndices(labels);
      var l := LabelJet(j, bs, c, f, phys);
      LabelsSnoc(jets[..n], j, bs, phys);
      assert jets[..n] + [j] == jets;
      NearestIsFirstMinimum(j, bs, |bs|, c, f, phys);
      if l.CentralB? {
        NoRepeatsSnoc(c, l.hadron);
      } else if l.ForwardB? {
        NoRepeatsSnoc(f, l.hadron);
      }
    }
  }
}
