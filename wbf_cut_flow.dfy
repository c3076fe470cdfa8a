/**
 * The WBF cut flow. Histogram fills are recorded as (histogram, bin, weight)
 * events in the order they happen. The jet multiplicity before cuts is always
 * filled; cut stage 2 needs two leading jets in opposite pseudorapidity
 * hemispheres with enough separation and mass; cut stage 3 and the jet
 * multiplicity after cuts further need the dilepton-MET system to pass its
 * thresholds.
 */
module WbfCutFlow {
  import opened Objects

  datatype Histogram = CutsWbf | NJetsBeforeWbf | NJetsAfterWbf

  datatype Fill = Fill(histogram: Histogram, bin: int, weight: real)

  /** The WBF thresholds. */
  datatype WbfCuts = WbfCuts(
    massJJMin: real,
    deltayJJMin: real,
    mTransLLMETMin: real,
    mllMin: real,
    ptlep1Min: real,
    ptlep2Min: real,
    metMin: real)

  /**
   * The fills of one pass through the WBF cut flow, given the jets, the two
   * leptons, the missing transverse momentum, the dilepton and transverse
   * masses, the thresholds and the event weight.
   */
  function WbfFills(jets: seq<Jet>, leptonM: Particle, leptonP: Particle, met: real, mll: real, mTransLLMET: real,
                    cuts: WbfCuts, weight: real, phys: Physics): (fills: seq<Fill>)
    ensures |fills| >= 1 && fills[0] == Fill(NJetsBeforeWbf, |jets|, weight)
    ensures Fill(CutsWbf, 2, weight) in fills <==>
              && |jets| >= 2
              && jets[0].mom.eta * jets[1].mom.eta <= 0.0
              && Abs(jets[0].mom.eta - jets[1].mom.eta) >= cuts.deltayJJMin
              && phys.dijetMass(jets[0].mom, jets[1].mom) >= cuts.massJJMin
    ensures Fill(CutsWbf, 3, weight) in fills <==>
              && Fill(CutsWbf, 2, weight) in fills
              && mTransLLMET >= cuts.mTransLLMETMin
              && mll >= cuts.mllMin
              && (leptonM.mom.pt >= cuts.ptlep1Min || leptonP.mom.pt >= cuts.ptlep1Min)
              && leptonM.mom.pt >= cuts.ptlep2Min && leptonP.mom.pt >= cuts.ptlep2Min
              && met >= cuts.metMin
    ensures Fill(NJetsAfterWbf, |jets|, weight) in fills <==> Fill(CutsWbf, 3, weight) in fills
    ensures fills == [Fill(NJetsBeforeWbf, |jets|, weight)]
         || fills == [Fill(NJetsBeforeWbf, |jets|, weight), Fill(CutsWbf, 2, weight)]
         || fills == [Fill(NJetsBeforeWbf, |jets|, weight), Fill(CutsWbf, 2, weight),
                      Fill(CutsWbf, 3, weight), Fill(NJetsAfterWbf, |jets|, weight)]
  {
    var before := [Fill(NJetsBeforeWbf, |jets|, weight)];
    if |jets| < 2 then before
    else
      var y0 := jets[0].mom.eta;
      var y1 := jets[1].mom.eta;
      var massJJ := phys.dijetMass(jets[0].mom, jets[1].mom);
      if y0 * y1 > 0.0 || Abs(y0 - y1) < cuts.deltayJJMin || massJJ < cuts.massJJMin then before
      else if mTransLLMET < cuts.mTransLLMETMin || mll < cuts.mllMin then before + [Fill(CutsWbf, 2, weight)]
      else
        var ptm := leptonM.mom.pt;
        var ptp := leptonP.mom.pt;
        var ptlep1 := if ptm > ptp then ptm else ptp;
        var ptlep2 := if ptm > ptp then ptp else ptm;
        if ptlep1 < cuts.ptlep1Min || ptlep2 < cuts.ptlep2Min || met < cuts.metMin then before + [Fill(CutsWbf, 2, weight)]
        else before + [Fill(CutsWbf, 2, weight), Fill(CutsWbf, 3, weight), Fill(NJetsAfterWbf, |jets|, weight)]
  }
}
