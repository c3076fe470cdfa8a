# WWbb event selection, modelled in Dafny

This project models the per-event object selection of the Rivet analysis `WWbb`
(`rivet/WWbb/WWbb.cc`): `WWbb::analyze` and the WBF (weak-boson-fusion) cut
flow `WWbb::analyze_WBF`. In one event the analysis does the following:

- It keeps the dressed muons and electrons that are isolated. A lepton is
  isolated when the visible transverse momentum within ΔR < 0.4 is below
  1.1 times its own pT.
- It builds `alljets`. These are the jets with |y| ≤ 4.5 that lie more than
  ΔR = 0.4 from every isolated lepton.
- It finds the B hadrons. A B hadron is an unstable particle that carries
  bottom, has decay products, and has no decay product carrying bottom.
- It labels each jet greedily with the nearest B hadron that no earlier jet
  has taken. It then splits the jets into central b-jets, forward b-jets and
  light jets, and keeps the hadron index of each b-jet.
- It applies the preselection: exactly one electron and one muon, of opposite
  charge. After it, it assigns the lepton, neutrino and b-jet roles and runs
  the WBF cut flow, which records its histogram fills.

Kinematics are abstracted. Every object carries given values (pT, rapidity,
pseudorapidity, φ, PDG id, charge). The angular distance, the dijet mass and
the bottom-content test come as functions in a `Physics` record, and the
model is proved for every choice of them. Histogram fills are recorded as
`(histogram, bin, weight)` events in the order they happen.

Layout:

- `sequences.dfy` holds the one notion of order-preserving selection
  (`Select`), which every filter and the jet split are stated through.
- `objects.dfy` holds the event records.
- `isolation.dfy`, `overlap.dfy`, `bhadrons.dfy`, `jet_labelling.dfy`,
  `preselection.dfy` and `wbf_cut_flow.dfy` hold the stages.
- `analysis.dfy` holds the class `WWbb`. Its fields are the analysis's member
  state.

Each loop of the source is a method proved equal to a specification
function. The properties of the analysis are lemmas about those functions.

## Model

| member | source | states |
|---|---|---|
| `Isolation.IsolateLeptons` | rivet/WWbb/WWbb.cc:183-200 | The nested cone-sum loops return exactly the leptons whose cone sum passes the isolation threshold, in input order. |
| `Isolation.IsolationKeepsExactlyIsolated` | rivet/WWbb/WWbb.cc:183-200 | A lepton survives iff the pT sum of visible particles at ΔR strictly below 0.4 is strictly below 1.1 × its pT. Survivors keep their relative order. The output is a sub-multiset of the input, so no lepton is duplicated. |
| `Overlap.RemoveOverlaps` | rivet/WWbb/WWbb.cc:205-217 | The jet loop with its `continue` and its `deltaRcontrol` flag returns exactly the jets the overlap rule keeps, in input order. |
| `Overlap.OverlapRemovalKeepsExactly` | rivet/WWbb/WWbb.cc:205-217 | A jet is kept iff abs(rapidity) ≤ 4.5 and every isolated muon and electron, by bare-lepton momentum, is at ΔR strictly above 0.4 (ΔR = 0.4 removes the jet). `alljets` is an order-preserving sub-multiset of the jets. |
| `BHadronFilter.FindBHadrons` | rivet/WWbb/WWbb.cc:222-249 | The loop over unstable particles, with its inner loop over decay products (`continue` on a non-bottom product, `break` on a bottom one), returns exactly the final B hadrons in input order. |
| `BHadronFilter.BHadronsKeepsExactly` | rivet/WWbb/WWbb.cc:224-249 | A particle enters `BHadrons` iff it has bottom, has at least one direct decay product, and no decay product has bottom (a bottom particle without products is rejected). Kept hadrons stay in input order, as a sub-multiset. |
| `JetLabelling.ScanHadrons` | rivet/WWbb/WWbb.cc:257-272 | The scan over B hadrons, skipping those already in either index list, returns the (dRmin, bfound) that the specification of the nearest free hadron gives. |
| `JetLabelling.LabelJets` | rivet/WWbb/WWbb.cc:255-276 | The labelling loop returns `bjets_central`, `bjets_forward` and `lightjets` as the jets of each label, in `alljets` order. It also returns the two index lists as the consumed hadrons of the central and forward labels. |
| `JetLabelling.NearestIsFirstMinimum` | rivet/WWbb/WWbb.cc:257-272 | dRmin ≤ 1000, and bfound = -1 iff dRmin stayed 1000. A found hadron is a valid, unconsumed index at distance dRmin. dRmin is at most every free hadron's distance and strictly below that of every free hadron before it, so the strict `<` picks the lowest index among equal minima. |
| `JetLabelling.LabelJetChoice` | rivet/WWbb/WWbb.cc:257-275 | Against given consumed lists, a jet is light iff every free hadron is at ΔR ≥ 0.4 (so also when none is left). Otherwise its hadron is a valid free index, is the first free one at minimal distance, lies at distance < 0.4, and the jet is central iff abs(rapidity) < 2.4, forward otherwise. |
| `JetLabelling.GreedyChoice` | rivet/WWbb/WWbb.cc:255-276 | The label of jet i is the label computed against exactly the hadrons consumed by jets 0..i-1, so each jet takes the nearest hadron no earlier jet took. |
| `JetLabelling.KindsPartition` | rivet/WWbb/WWbb.cc:273-275 | The counts of the three kinds in any label sequence add up to its length. That the three ifs select exactly the list of the label's kind is shown by `LabelJetsStep` and the `LabelJets` invariant. |
| `JetLabelling.JetsPartitioned` | rivet/WWbb/WWbb.cc:256-276 | The lengths of the three jet lists sum to the size of `alljets`. Every jet sits in its own label's list at its rank, and two jets of the same label keep their order. |
| `JetLabelling.IndicesParallel` | rivet/WWbb/WWbb.cc:255-275 | `bjets_central_index` and `bjets_forward_index` have the lengths of their jet lists. Entry k of each is the hadron consumed by jet k of that list. Light jets consume no hadron. |
| `JetLabelling.ConsumedHadronsDistinct` | rivet/WWbb/WWbb.cc:255-275 | Every consumed index is valid in `BHadrons`. Neither index list repeats an index, and no index appears in both, so no hadron is used twice. |
| `JetLabelling.JetLabelsPrefix` | rivet/WWbb/WWbb.cc:256-276 | The label of a jet depends only on the jets before it: the labels of a prefix of `alljets` are the prefix of the labels. |
| `Preselection.LeptonRolesByCharge` | rivet/WWbb/WWbb.cc:282-292 | After preselection, `lepton_p` has charge +1 and `lepton_m` has charge -1, and together they are the electron and the muon. |
| `Preselection.NeutrinoReadsFirstCandidateOnly` | rivet/WWbb/WWbb.cc:295-302 | Each neutrino role loop reads the leading neutrino only. The neutrinos after it never change the role. |
| `Preselection.BJetReadsFirstCandidateOnly` | rivet/WWbb/WWbb.cc:304-312 | Each b-jet role loop reads the leading central b-jet and its hadron only. The b-jets after it never change the role. |
| `Preselection.BJetRolesBySign` | rivet/WWbb/WWbb.cc:304-312 | A positive hadron charge of the first central b-jet sets `bjet_m` and a negative one sets `bjet_p`. A neutral charge, or no central b-jet, leaves both unchanged. |
| `WbfCutFlow.WbfFills` | rivet/WWbb/WWbb.cc:353-373 | `njets_before` is always filled first with the size of `alljets`. Bin 2 is filled iff there are ≥ 2 jets, eta0·eta1 ≤ 0, abs(eta0−eta1) ≥ the rapidity-gap minimum and the dijet mass ≥ its minimum. Bin 3 is filled iff bin 2 is filled and mT, m_ll, the larger and the smaller lepton pT, and MET pass their thresholds. `njets_after` is filled iff bin 3 is. No other fill sequence occurs. |
| `Analysis.CentralIndicesUsable` | rivet/WWbb/WWbb.cc:304-310 | The central b-jet index list has one entry per central b-jet, and every entry indexes `BHadrons`, so the b-jet role loops read valid hadrons. |
| `Analysis.WWbb.constructor` | rivet/WWbb/WWbb.cc:40-46 | Stores the WBF thresholds and the two masses, and starts with empty jet lists, default particles and jets, and no fills. MET is left unset, as in the source. |
| `Analysis.WWbb.Analyze` | rivet/WWbb/WWbb.cc:144-328 | Clears and rebuilds the four jet lists from the selection stages and sets MET. Without preselection, it changes no role and appends no fill. With it, it sets the six roles from the first candidates and appends exactly the WBF fills. |
| `Analysis.WWbb.SelectObjects` | rivet/WWbb/WWbb.cc:145-276 | The new jet lists and MET equal the stage specifications for this event. The index list of the central b-jets is parallel to them and points into `BHadrons`. |
| `Analysis.WWbb.AssignRoles` | rivet/WWbb/WWbb.cc:285-312 | Sets `lepton_p`/`lepton_m` by the electron's charge sign. `nu_p`, `nu_m`, `bjet_m` and `bjet_p` take the leading candidate only when it matches, and otherwise keep their previous value. |
| `Analysis.WWbb.AnalyzeWbf` | rivet/WWbb/WWbb.cc:353-373 | The early-return cut flow appends exactly `WbfFills` to the recorded fills and changes nothing else. |

## Left out

- The projection setup in `init`, the histogram booking and the plugin hook (rivet/WWbb/WWbb.cc:49-140, 345-351, 415): framework plumbing. A fill is an appended `(histogram, bin, weight)` record.
- Four-vector arithmetic: ΔR, dijet mass, MET as `-visibleMomentum().pT()`, and |y| and η. These are given values or the given functions of `Physics`, and reals are exact. So `1. + lepton_iso_frac` is exactly 1.1, and NaN or rounding effects are not modelled.
- `PID::hasBottom` and the HepMC traversal from a particle to its end vertex's outgoing particles: foreign library code. They are a given predicate on PDG ids and a given list of product PDG ids per unstable particle.
- `FindBHadrons`: requires every bottom-flavoured unstable particle to have a recorded end vertex (`DecaysRecorded`). The code follows the vertex pointer without a test, so a missing vertex is a null access. The model states what the code demands and does not invent a recovery path.
- `std::find` on the index lists is set membership on the sequences.
- The upstream cuts inside the projections are not part of this model: jet pT > 25 GeV (`jetsByPt`), unstable-particle pT > 5 GeV, and the lepton η and pT cuts. Their outputs are the event's inputs.
- The empty channel hooks `analyze_WW`, `analyze_HH`, `analyze_BL` and the commented-out tag-jet veto (rivet/WWbb/WWbb.cc:334-340, 375-378, 385-402) do nothing, and are not modelled.
- `MET_4v` is read only to compute `MET` (rivet/WWbb/WWbb.cc:165), which the model takes as the given `metPt` of the event; `m_Wm`, `m_Wp`, `m_tm` and `m_tp` are never read. `bjets_forward_index` is kept only as the `LabelJets` result.
- The WBF thresholds, `m_ll` and `m_trans_llMET` are declared but never assigned in the source. They are constructor parameters stored as constants rather than invented values.
- Particle charges are integers.
- Cross-event state: the role fields `lepton_*`, `nu_*` and `bjet_*` are never reset, so a role whose first candidate does not match keeps the value of an earlier event. The model follows the code here, so the role fields are not recomputed from scratch each event.
- The neutrino and b-jet role loops break unconditionally after their first element. This is preserved, and a later matching candidate is never considered.
