/**
 * The WWbb analysis object. Its fields hold the per-event working lists and
 * the particles given a role; `Analyze` runs once per event and rebuilds the
 * jet lists, then, for a preselected event, assigns the roles and runs the
 * WBF cut flow, whose histogram fills are appended to `fills`. The role
 * fields are not reset between events: a role whose first candidate does not
 * match keeps the value an earlier event gave it.
 */
module Analysis {
  import opened Objects
  import opened Sequences
  import opened Isolation
  import opened Overlap
  import opened BHadronFilter
  import opened JetLabelling
  import opened Preselection
  import opened WbfCutFlow

  /**
   * The central b-jet index list can be read the way the role loops read it:
   * it runs parallel to the central b-jets and points into the B hadrons.
   */
  lemma CentralIndicesUsable(jets: seq<Jet>, bs: seq<UnstableParticle>, phys: Physics)
    ensures var labels := JetLabels(jets, bs, phys);
            && |CentralIndices(labels)| == |Select(jets, Kinds(labels), Central)|
            && IndicesInto(CentralIndices(labels), bs)
  {
    var labels := JetLabels(jets, bs, phys);
    var centralIdx := CentralIndices(labels);
    IndicesParallel(jets, bs, phys);
    ConsumedHadronsDistinct(jets, bs, phys);
    forall m | 0 <= m < |centralIdx| ensures 0 <= centralIdx[m] < |bs| {
      assert centralIdx[m] in centralIdx;
    }
  }

  class WWbb {
    const cuts: WbfCuts
    /** The dilepton mass and the transverse mass of the dilepton-MET system, which the analysis reads but never sets. */
    const mll: real
    const mTransLLMET: real

    var met: real
    var alljets: seq<Jet>
    var lightjets: seq<Jet>
    var bjetsCentral: seq<Jet>
    var bjetsForward: seq<Jet>
    var leptonM: Particle
    var leptonP: Particle
    var nuM: Particle
    var nuP: Particle
    var bjetP: Jet
    var bjetM: Jet
    /** Every histogram fill made so far, oldest first. */
    var fills: seq<Fill>

    constructor (cuts: WbfCuts, mll: real, mTransLLMET: real)
      ensures this.cuts == cuts && this.mll == mll && this.mTransLLMET == mTransLLMET
      ensures alljets == [] && lightjets == [] && bjetsCentral == [] && bjetsForward == []
      ensures leptonM == NoParticle && leptonP == NoParticle && nuM == NoParticle && nuP == NoParticle
      ensures bjetP == NoJet && bjetM == NoJet
      ensures fills == []
    {
      this.cuts := cuts;
      this.mll := mll;
      this.mTransLLMET := mTransLLMET;
      // `met` is left unset, as the source leaves `MET`; `SelectObjects` sets it before it is read.
      alljets, lightjets, bjetsCentral, bjetsForward := [], [], [], [];
      leptonM, leptonP, nuM, nuP := NoParticle, NoParticle, NoParticle, NoParticle;
      bjetP, bjetM := NoJet, NoJet;
      fills := [];
    }

    /** One event. */
    method Analyze(ev: Event, phys: Physics)
      requires DecaysRecorded(ev.unstable, phys)
      modifies this
      ensures met == ev.metPt
      ensures alljets == AllJets(ev.jets, IsolatedLeptons(ev.muons, ev.visible, phys),
                                 IsolatedLeptons(ev.electrons, ev.visible, phys), phys)
      ensures var labels := JetLabels(alljets, BHadrons(ev.unstable, phys), phys);
              && bjetsCentral == Select(alljets, Kinds(labels), Central)
              && bjetsForward == Select(alljets, Kinds(labels), Forward)
              && lightjets == Select(alljets, Kinds(labels), Light)
              && |CentralIndices(labels)| == |bjetsCentral|
              && IndicesInto(CentralIndices(labels), BHadrons(ev.unstable, phys))
      ensures var electrons := IsolatedLeptons(ev.electrons, ev.visible, phys);
              var muons := IsolatedLeptons(ev.muons, ev.visible, phys);
              !Preselected(electrons, muons) ==>
                && leptonM == old(leptonM) && leptonP == old(leptonP)
                && nuM == old(nuM) && nuP == old(nuP)
                && bjetM == old(bjetM) && bjetP == old(bjetP)
                && fills == old(fills)
      ensures var electrons := IsolatedLeptons(ev.electrons, ev.visible, phys);
              var muons := IsolatedLeptons(ev.muons, ev.visible, phys);
              var bhadrons := BHadrons(ev.unstable, phys);
              var labels := JetLabels(alljets, bhadrons, phys);
              Preselected(electrons, muons) ==>
                && leptonP == PositiveLepton(electrons[0], muons[0])
                && leptonM == NegativeLepton(electrons[0], muons[0])
                && nuP == PartnerNeutrino(ev.neutrinos, leptonP, 1, old(nuP))
                && nuM == PartnerNeutrino(ev.neutrinos, leptonM, -1, old(nuM))
                && bjetM == BJetRole(bjetsCentral, CentralIndices(labels), bhadrons, true, old(bjetM))
                && bjetP == BJetRole(bjetsCentral, CentralIndices(labels), bhadrons, false, old(bjetP))
                && fills == old(fills) + WbfFills(alljets, leptonM, leptonP, met, mll, mTransLLMET, cuts, ev.weight, phys)
    {
      var muonIsolated, electronIsolated, bhadrons, centralIdx := SelectObjects(ev, phys);

      if |electronIsolated| != 1 || |muonIsolated| != 1 {
        return;
      }
      if electronIsolated[0].dressed.charge * muonIsolated[0].dressed.charge != -1 {
        return;
      }
      AssignRoles(electronIsolated[0], muonIsolated[0], ev.neutrinos, bhadrons, centralIdx);
      AnalyzeWbf(ev.weight, phys);
    }

    /**
     * The object selection of one event: isolated leptons, jets clear of
     * them, B hadrons, and the jets split by their b label. Returns the
     * isolated muons and electrons, the B hadrons and the hadron index of
     * each central b-jet.
     */
    method SelectObjects(ev: Event, phys: Physics)
      returns (muonIsolated: seq<DressedLepton>, electronIsolated: seq<DressedLepton>,
               bhadrons: seq<UnstableParticle>, centralIdx: seq<int>)
      requires DecaysRecorded(ev.unstable, phys)
      modifies this`met, this`alljets, this`lightjets, this`bjetsCentral, this`bjetsForward
      ensures muonIsolated == IsolatedLeptons(ev.muons, ev.visible, phys)
      ensures electronIsolated == IsolatedLeptons(ev.electrons, ev.visible, phys)
      ensures bhadrons == BHadrons(ev.unstable, phys)
      ensures met == ev.metPt
      ensures alljets == AllJets(ev.jets, muonIsolated, electronIsolated, phys)
      ensures var labels := JetLabels(alljets, bhadrons, phys);
              && bjetsCentral == Select(alljets, Kinds(labels), Central)
              && bjetsForward == Select(alljets, Kinds(labels), Forward)
              && lightjets == Select(alljets, Kinds(labels), Light)
              && centralIdx == CentralIndices(labels)
      ensures |centralIdx| == |bjetsCentral| && IndicesInto(centralIdx, bhadrons)
    {
      alljets, lightjets, bjetsCentral, bjetsForward := [], [], [], [];
      met := ev.metPt;

      muonIsolated := IsolateLeptons(ev.muons, ev.visible, phys);
      electronIsolated := IsolateLeptons(ev.electrons, ev.visible, phys);

      var jets := RemoveOverlaps(ev.jets, muonIsolated, electronIsolated, phys);

      bhadrons := FindBHadrons(ev.unstable, phys);

      var central, forward, light, forwardIdx;
      central, forward, light, centralIdx, forwardIdx := LabelJets(jets, bhadrons, phys);
      CentralIndicesUsable(jets, bhadrons, phys);
      alljets, bjetsCentral, bjetsForward, lightjets := jets, central, forward, light;
    }

    /** The role assignment of a preselected event. */
    method AssignRoles(e: DressedLepton, mu: DressedLepton, neutrinos: seq<Particle>,
                       bhadrons: seq<UnstableParticle>, centralIdx: seq<int>)
      requires |centralIdx| == |bjetsCentral| && IndicesInto(centralIdx, bhadrons)
      modifies this`leptonM, this`leptonP, this`nuM, this`nuP, this`bjetM, this`bjetP
      ensures leptonP == PositiveLepton(e, mu) && leptonM == NegativeLepton(e, mu)
      ensures nuP == PartnerNeutrino(neutrinos, leptonP, 1, old(nuP))
      ensures nuM == PartnerNeutrino(neutrinos, leptonM, -1, old(nuM))
      ensures bjetM == BJetRole(bjetsCentral, centralIdx, bhadrons, true, old(bjetM))
      ensures bjetP == BJetRole(bjetsCentral, centralIdx, bhadrons, false, old(bjetP))
    {
      if e.dressed.charge > 0 {
        leptonM := mu.dressed;
        leptonP := e.dressed;
      } else {
        leptonP := mu.dressed;
        leptonM := e.dressed;
      }

      for k := 0 to |neutrinos|
        invariant k == 0 && nuP == old(nuP)
      {
        if neutrinos[k].pid + leptonP.pid == 1 {
          nuP := neutrinos[k];
        }
        break;
      }
      for k := 0 to |neutrinos|
        invariant k == 0 && nuM == old(nuM)
      {
        if neutrinos[k].pid + leptonM.pid == -1 {
          nuM := neutrinos[k];
        }
        break;
      }

      for ibjet := 0 to |bjetsCentral|
        invariant ibjet == 0 && bjetM == old(bjetM)
      {
        if bhadrons[centralIdx[ibjet]].particle.charge > 0 {
          bjetM := bjetsCentral[ibjet];
        }
        break;
      }
      for ibjet := 0 to |bjetsCentral|
        invariant ibjet == 0 && bjetP == old(bjetP)
      {
        if bhadrons[centralIdx[ibjet]].particle.charge < 0 {
          bjetP := bjetsCentral[ibjet];
        }
        break;
      }
    }

    /** The WBF cut flow, read off the event state; it only appends histogram fills. */
    method AnalyzeWbf(weight: real, phys: Physics)
      modifies this`fills
      ensures fills == old(fills) + WbfFills(alljets, leptonM, leptonP, met, mll, mTransLLMET, cuts, weight, phys)
    {
      fills := fills + [Fill(NJetsBeforeWbf, |alljets|, weight)];

      if |alljets| < 2 {
        return;
      }
      var y0 := alljets[0].mom.eta;
      var y1 := alljets[1].mom.eta;
      var massJJ := phys.dijetMass(alljets[0].mom, alljets[1].mom);
      if y0 * y1 > 0.0 || Abs(y0 - y1) < cuts.deltayJJMin || massJJ < cuts.massJJMin {
        return;
      }
      fills := fills + [Fill(CutsWbf, 2, weight)];

      if mTransLLMET < cuts.mTransLLMETMin || mll < cuts.mllMin {
        return;
      }
      var ptm := leptonM.mom.pt;
      var ptp := leptonP.mom.pt;
      var ptlep1 := if ptm > ptp then ptm else ptp;
      var ptlep2 := if ptm > ptp then ptp else ptm;
      if ptlep1 < cuts.ptlep1Min || ptlep2 < cuts.ptlep2Min || met < cuts.metMin {
        return;
      }
      fills := fills + [Fill(CutsWbf, 3, weight)];

      fills := fills + [Fill(NJetsAfterWbf, |alljets|, weight)];
    }
  }
}
