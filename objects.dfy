/**
 * The event objects the WWbb selection reads. Four-vector arithmetic is not
 * modelled: a momentum carries the values that the selection reads, and the
 * angular distance, the dijet mass and the bottom-flavour test of a PDG code
 * are supplied from outside as the functions of a `Physics` value.
 */
module Objects {

  /** A four-momentum, reduced to transverse momentum, rapidity, pseudorapidity and azimuth. */
  datatype Momentum = Momentum(pt: real, rap: real, eta: real, phi: real)

  /** A particle: its momentum, PDG code and electric charge. */
  datatype Particle = Particle(mom: Momentum, pid: int, charge: int)

  /** A lepton dressed with nearby photons: its dressed self and the bare constituent lepton. */
  datatype DressedLepton = DressedLepton(dressed: Particle, bare: Particle)

  /** A reconstructed jet. */
  datatype Jet = Jet(mom: Momentum)

  datatype Option<T> = None | Some(value: T)

  /**
   * An unstable particle with the PDG codes of the products leaving its end
   * vertex; `None` when it has no end vertex.
   */
  datatype UnstableParticle = UnstableParticle(particle: Particle, decayProducts: Option<seq<int>>)

  /**
   * The calculations the selection asks of the physics library:
   * deltaR(a, b) is the distance of two momenta in (rapidity, azimuth),
   * dijetMass(a, b) the invariant mass of their sum, and hasBottom(pid)
   * says whether a PDG code carries a bottom quark.
   */
  datatype Physics = Physics(
    deltaR: (Momentum, Momentum) -> real,
    dijetMass: (Momentum, Momentum) -> real,
    hasBottom: int -> bool)

  /**
   * What one event supplies: its weight, the visible final-state particles,
   * the unstable particles above 5 GeV, the transverse missing momentum, the
   * dressed muons and electrons, the jets above 25 GeV in decreasing pT, and
   * the leading neutrinos in decreasing pT.
   */
  datatype Event = Event(
    weight: real,
    visible: seq<Particle>,
    unstable: seq<UnstableParticle>,
    metPt: real,
    muons: seq<DressedLepton>,
    electrons: seq<DressedLepton>,
    jets: seq<Jet>,
    neutrinos: seq<Particle>)

  /** A default-constructed particle and jet: zero momentum, PDG code 0. */
  const ZeroMomentum := Momentum(0.0, 0.0, 0.0, 0.0)
  const NoParticle := Particle(ZeroMomentum, 0, 0)
  const NoJet := Jet(ZeroMomentum)

  function Abs(x: real): real
  {
    if x < 0.0 then -x else x
  }
}
