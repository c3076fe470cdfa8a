/**
 * Jet-lepton overlap removal: a jet (from the pT-ordered list above 25 GeV)
 * enters `alljets` when its absolute rapidity is at most 4.5 and every
 * isolated muon and electron, taken by its bare momentum, lies farther than
 * 0.4 from it.
 */
module Overlap {
  import opened Objects
  import opened Sequences

  const JetEtaMax: real := 4.5
  const LeptonJetIsolationDR: real := 0.4

  /** Every lepton of `ls`, by its bare momentum, lies farther than LeptonJetIsolationDR from `j`. */
  predicate ClearOf(j: Jet, ls: seq<DressedLepton>, phys: Physics)
  {
    forall m :: 0 <= m < |ls| ==> phys.deltaR(ls[m].bare.mom, j.mom) > LeptonJetIsolationDR
  }

  predicate KeepJet(j: Jet, muons: seq<DressedLepton>, electrons: seq<DressedLepton>, phys: Physics)
  {
    Abs(j.mom.rap) <= JetEtaMax && ClearOf(j, muons, phys) && ClearOf(j, electrons, phys)
  }

  function OverlapMarks(jets: seq<Jet>, muons: seq<DressedLepton>, electrons: seq<DressedLepton>, phys: Physics): seq<bool>
  {
    seq(|jets|, i requires 0 <= i < |jets| => KeepJet(jets[i], muons, electrons, phys))
  }

  /** The jets that survive overlap removal, in the order of `jets`. */
  function AllJets(jets: seq<Jet>, muons: seq<DressedLepton>, electrons: seq<DressedLepton>, phys: Physics): seq<Jet>
  {
    Select(jets, OverlapMarks(jets, muons, electrons, phys), true)
  }

  lemma AllJetsSnoc(jets: seq<Jet>, j: Jet, muons: seq<DressedLepton>, electrons: seq<DressedLepton>, phys: Physics)
    ensures AllJets(jets + [j], muons, electrons, phys)
         == AllJets(jets, muons, electrons, phys) + (if KeepJet(j, muons, electrons, phys) then [j] else [])
  {
    var keep := KeepJet(j, muons, electrons, phys);
    assert OverlapMarks(jets + [j], muons, electrons, phys) == OverlapMarks(jets, muons, electrons, phys) + [keep];
    SelectSnoc(jets, OverlapMarks(jets, muons, electrons, phys), j, keep, true);
  }

  /** The overlap-removal loop building `alljets`. */
  method RemoveOverlaps(jets: seq<Jet>, muons: seq<DressedLepton>, electrons: seq<DressedLepton>, phys: Physics)
    returns (alljets: seq<Jet>)
    ensures alljets == AllJets(jets, muons, electrons, phys)
  {
    alljets := [];
    for i := 0 to |jets|
      invariant alljets == AllJets(jets[..i], muons, electrons, phys)
    {
      var j := jets[i];
      AllJetsSnoc(jets[..i], j, muons, electrons, phys);
      assert jets[..i + 1] == jets[..i] + [j];
      if Abs(j.mom.rap) > JetEtaMax {
        continue;
      }
      var deltaRcontrol := true;
      for k := 0 to |muons|
        invariant deltaRcontrol == forall m :: 0 <= m < k ==> phys.deltaR(muons[m].bare.mom, j.mom) > LeptonJetIsolationDR
      {
        var deltaRjets := phys.deltaR(muons[k].bare.mom, j.mom);
        if deltaRjets <= LeptonJetIsolationDR {
          deltaRcontrol := false;
        }
      }
      for k := 0 to |electrons|
        invariant deltaRcontrol == (ClearOf(j, muons, phys) &&
          forall m :: 0 <= m < k ==> phys.deltaR(electrons[m].bare.mom, j.mom) > LeptonJetIsolationDR)
      {
        var deltaRjets := phys.deltaR(electrons[k].bare.mom, j.mom);
        if deltaRjets <= LeptonJetIsolationDR {
          deltaRcontrol := false;
        }
      }
      if deltaRcontrol {
        alljets := alljets + [j];
      }
    }
    assert jets[..|jets|] == jets;
  }

  /**
   * A jet is kept iff |rapidity| <= 4.5 and every isolated muon and electron
   * is at a distance strictly above 0.4 (a distance of exactly 0.4 removes
   * it); kept jets keep their input order and are not repeated.
   */
  lemma OverlapRemovalKeepsExactly(jets: seq<Jet>, muons: seq<DressedLepton>, electrons: seq<DressedLepton>, phys: Physics)
    ensures forall j :: j in AllJets(jets, muons, electrons, phys) <==>
              j in jets && Abs(j.mom.rap) <= 4.5 &&
              (forall l :: l in muons ==> phys.deltaR(l.bare.mom, j.mom) > 0.4) &&
              (forall l :: l in electrons ==> phys.deltaR(l.bare.mom, j.mom) > 0.4)
    ensures forall i, k :: 0 <= i < k < |jets| && KeepJet(jets[i], muons, electrons, phys) && KeepJet(jets[k], muons, electrons, phys) ==>
              exists a, b :: 0 <= a < b < |AllJets(jets, muons, electrons, phys)| &&
                AllJets(jets, muons, electrons, phys)[a] == jets[i] && AllJets(jets, muons, electrons, phys)[b] == jets[k]
    ensures multiset(AllJets(jets, muons, electrons, phys)) <= multiset(jets)
  {
    var marks := OverlapMarks(jets, muons, electrons, phys);
    SelectExact(jets, marks, true);
    forall j
      ensures j in AllJets(jets, muons, electrons, phys) <==>
              j in jets && Abs(j.mom.rap) <= 4.5 &&
              (forall l :: l in muons ==> phys.deltaR(l.bare.mom, j.mom) > 0.4) &&
              (forall l :: l in electrons ==> phys.deltaR(l.bare.mom, j.mom) > 0.4)
    {
      assert ClearOf(j, muons, phys) <==> forall l :: l in muons ==> phys.deltaR(l.bare.mom, j.mom) > 0.4;
      assert ClearOf(j, electrons, phys) <==> forall l :: l in electrons ==> phys.deltaR(l.bare.mom, j.mom) > 0.4;
      if j in jets {
        var i :| 0 <= i < |jets| && jets[i] == j;
        assert marks[i] == KeepJet(j, muons, electrons, phys);
      }
    }
    forall i, k | 0 <= i < k < |jets| && KeepJet(jets[i], muons, electrons, phys) && KeepJet(jets[k], muons, electrons, phys)
      ensures exists a, b :: 0 <= a < b < |AllJets(jets, muons, electrons, phys)| &&
                AllJets(jets, muons, electrons, phys)[a] == jets[i] && AllJets(jets, muons, electrons, phys)[b] == jets[k]
    {
      assert marks[i] && marks[k];
      KeptInOrder(jets, marks, i, k);
    }
  }
}
