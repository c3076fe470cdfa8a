/**
 * Event preselection and role assignment: the event goes on only with
 * exactly one isolated electron and one isolated muon of opposite charge;
 * they become the positive and the negative lepton. Partner neutrinos and the
 * two b-jet roles are then set from the first candidate only, and keep their
 * previous value when that candidate does not match.
 */
module Preselection {
  import opened Objects

  predicate Preselected(electrons: seq<DressedLepton>, muons: seq<DressedLepton>)
  {
    |electrons| == 1 && |muons| == 1 && electrons[0].dressed.charge * muons[0].dressed.charge == -1
  }

  /** `lepton_p`: the electron when its charge is positive, otherwise the muon. */
  function PositiveLepton(e: DressedLepton, mu: DressedLepton): Particle
  {
    if e.dressed.charge > 0 then e.dressed else mu.dressed
  }

  /** `lepton_m`: the muon when the electron's charge is positive, otherwise the electron. */
  function NegativeLepton(e: DressedLepton, mu: DressedLepton): Particle
  {
    if e.dressed.charge > 0 then mu.dressed else e.dressed
  }

  /**
   * After preselection, `lepton_p` has charge +1 and `lepton_m` charge -1,
   * and together they are the electron and the muon, whichever flavour is
   * positive.
   */
  lemma LeptonRolesByCharge(electrons: seq<DressedLepton>, muons: seq<DressedLepton>)
    requires Preselected(electrons, muons)
    ensures PositiveLepton(electrons[0], muons[0]).charge == 1
    ensures NegativeLepton(electrons[0], muons[0]).charge == -1
    ensures multiset{PositiveLepton(electrons[0], muons[0]), NegativeLepton(electrons[0], muons[0])}
         == multiset{electrons[0].dressed, muons[0].dressed}
  {
  }

  /**
   * The partner neutrino of `lepton`: only the leading neutrino is examined;
   * it is taken when its PDG code plus the lepton's equals `pidSum` (+1 for
   * the positive lepton, -1 for the negative one), and otherwise `current`
   * stays.
   */
  function PartnerNeutrino(neutrinos: seq<Particle>, lepton: Particle, pidSum: int, current: Particle): Particle
  {
    if |neutrinos| > 0 && neutrinos[0].pid + lepton.pid == pidSum then neutrinos[0] else current
  }

  /** Every index of `idx` points into `bhadrons`. */
  predicate IndicesInto(idx: seq<int>, bhadrons: seq<UnstableParticle>)
  {
    forall m :: 0 <= m < |idx| ==> 0 <= idx[m] < |bhadrons|
  }

  /**
   * A b-jet role: only the first central b-jet is examined; it is taken when
   * the charge of the hadron it consumed has the requested sign (`bjet_m` for
   * a positive hadron, `bjet_p` for a negative one), and otherwise `current`
   * stays.
   */
  function BJetRole(bjets: seq<Jet>, idx: seq<int>, bhadrons: seq<UnstableParticle>, positive: bool, current: Jet): Jet
    requires |idx| == |bjets| && IndicesInto(idx, bhadrons)
  {
    if |bjets| > 0 &&
       (var q := bhadrons[idx[0]].particle.charge; if positive then q > 0 else q < 0)
    then bjets[0]
    else current
  }

  /** The neutrino role loops look at the leading neutrino only: the neutrinos after it have no effect on the role. */
  lemma NeutrinoReadsFirstCandidateOnly(neutrinos: seq<Particle>, lepton: Particle, pidSum: int, current: Particle)
    requires |neutrinos| > 0
    ensures PartnerNeutrino(neutrinos, lepton, pidSum, current) == PartnerNeutrino(neutrinos[..1], lepton, pidSum, current)
  {
  }

  /** The b-jet role loops look at the leading central b-jet only: the b-jets after it have no effect on the role. */
  lemma BJetReadsFirstCandidateOnly(bjets: seq<Jet>, idx: seq<int>, bhadrons: seq<UnstableParticle>,
                                    positive: bool, current: Jet)
    requires |bjets| > 0 && |idx| == |bjets| && IndicesInto(idx, bhadrons)
    ensures IndicesInto(idx[..1], bhadrons)
    ensures BJetRole(bjets, idx, bhadrons, positive, current) == BJetRole(bjets[..1], idx[..1], bhadrons, positive, current)
  {
  }

  /**
   * The sign of the hadron consumed by the leading central b-jet decides
   * which b-jet role that jet takes: a positive hadron gives `bjet_m`, a
   * negative one `bjet_p`, a neutral one neither; the other role keeps its
   * previous value, and so do both when there is no central b-jet.
   */
  lemma BJetRolesBySign(bjets: seq<Jet>, idx: seq<int>, bhadrons: seq<UnstableParticle>, bjetM: Jet, bjetP: Jet)
    requires |idx| == |bjets| && IndicesInto(idx, bhadrons)
    ensures |bjets| == 0 ==>
              BJetRole(bjets, idx, bhadrons, true, bjetM) == bjetM && BJetRole(bjets, idx, bhadrons, false, bjetP) == bjetP
    ensures |bjets| > 0 && bhadrons[idx[0]].particle.charge > 0 ==>
              BJetRole(bjets, idx, bhadrons, true, bjetM) == bjets[0] && BJetRole(bjets, idx, bhadrons, false, bjetP) == bjetP
    ensures |bjets| > 0 && bhadrons[idx[0]].particle.charge < 0 ==>
              BJetRole(bjets, idx, bhadrons, true, bjetM) == bjetM && BJetRole(bjets, idx, bhadrons, false, bjetP) == bjets[0]
    ensures |bjets| > 0 && bhadrons[idx[0]].particle.charge == 0 ==>
              BJetRole(bjets, idx, bhadrons, true, bjetM) == bjetM && BJetRole(bjets, idx, bhadrons, false, bjetP) == bjetP
  {
  }
}
