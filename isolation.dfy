/**
 * Lepton isolation: a dressed lepton is kept when the summed transverse
 * momentum of the visible particles inside a cone of radius 0.4 around it is
 * below 1.1 times its own transverse momentum. The lepton's own constituents
 * lie in the cone, hence the factor 1 + 0.1.
 */
module Isolation {
  import opened Objects
  import opened Sequences

  const LeptonIsoDR: real := 0.4
  const LeptonIsoFrac: real := 0.1

  /** Summed pT of the visible particles strictly closer than LeptonIsoDR to `l`, added in the order of `visible`. */
  function ConeSum(l: DressedLepton, visible: seq<Particle>, phys: Physics): real
  {
    if visible == [] then 0.0
    else
      var n := |visible| - 1;
      ConeSum(l, visible[..n], phys)
        + (if phys.deltaR(l.dressed.mom, visible[n].mom) < LeptonIsoDR then visible[n].mom.pt else 0.0)
  }

  predicate Isolated(l: DressedLepton, visible: seq<Particle>, phys: Physics)
  {
    ConeSum(l, visible, phys) < (1.0 + LeptonIsoFrac) * l.dressed.mom.pt
  }

  function IsolationMarks(ls: seq<DressedLepton>, visible: seq<Particle>, phys: Physics): seq<bool>
  {
    seq(|ls|, i requires 0 <= i < |ls| => Isolated(ls[i], visible, phys))
  }

  /** The isolated leptons of `ls`, in the order of `ls`. */
  function IsolatedLeptons(ls: seq<DressedLepton>, visible: seq<Particle>, phys: Physics): seq<DressedLepton>
  {
    Select(ls, IsolationMarks(ls, visible, phys), true)
  }

  lemma IsolatedLeptonsSnoc(ls: seq<DressedLepton>, l: DressedLepton, visible: seq<Particle>, phys: Physics)
    ensures IsolatedLeptons(ls + [l], visible, phys)
         == IsolatedLeptons(ls, visible, phys) + (if Isolated(l, visible, phys) then [l] else [])
  {
    assert IsolationMarks(ls + [l], visible, phys) == IsolationMarks(ls, visible, phys) + [Isolated(l, visible, phys)];
    SelectSnoc(ls, IsolationMarks(ls, visible, phys), l, Isolated(l, visible, phys), true);
  }

  /** The isolation loop run over the dressed muons and again over the dressed electrons. */
  method IsolateLeptons(ls: seq<DressedLepton>, visible: seq<Particle>, phys: Physics)
    returns (isolated: seq<DressedLepton>)
    ensures isolated == IsolatedLeptons(ls, visible, phys)
  {
    isolated := [];
    for i := 0 to |ls|
      invariant isolated == IsolatedLeptons(ls[..i], visible, phys)
    {
      var l := ls[i];
      var ptcone := 0.0;
      for k := 0 to |visible|
        invariant ptcone == ConeSum(l, visible[..k], phys)
      {
        var p := visible[k];
        var deltaRlpart := phys.deltaR(l.dressed.mom, p.mom);
        if deltaRlpart < LeptonIsoDR {
          ptcone := ptcone + p.mom.pt;
        }
        assert visible[..k + 1][..k] == visible[..k];
      }
      assert visible[..|visible|] == visible;
      IsolatedLeptonsSnoc(ls[..i], l, visible, phys);
      assert ls[..i + 1] == ls[..i] + [l];
      if ptcone < (1.0 + LeptonIsoFrac) * l.dressed.mom.pt {
        isolated := isolated + [l];
      }
    }
    assert ls[..|ls|] == ls;
  }

  /**
   * A lepton survives iff its cone sum is strictly below 1.1 times its pT (a
   * cone sum equal to 1.1 pT fails); survivors keep their input order, and
   * none is repeated more often than the input holds it.
   */
  lemma IsolationKeepsExactlyIsolated(ls: seq<DressedLepton>, visible: seq<Particle>, phys: Physics)
    ensures forall l :: l in IsolatedLeptons(ls, visible, phys) <==>
              l in ls && ConeSum(l, visible, phys) < 1.1 * l.dressed.mom.pt
    ensures forall i, j :: 0 <= i < j < |ls| && Isolated(ls[i], visible, phys) && Isolated(ls[j], visible, phys) ==>
              exists a, b :: 0 <= a < b < |IsolatedLeptons(ls, visible, phys)| &&
                IsolatedLeptons(ls, visible, phys)[a] == ls[i] && IsolatedLeptons(ls, visible, phys)[b] == ls[j]
    ensures multiset(IsolatedLeptons(ls, visible, phys)) <= multiset(ls)
  {
    var marks := IsolationMarks(ls, visible, phys);
    SelectExact(ls, marks, true);
    forall l
      ensures l in IsolatedLeptons(ls, visible, phys) <==> l in ls && ConeSum(l, visible, phys) < 1.1 * l.dressed.mom.pt
    {
      if l in ls {
        var i :| 0 <= i < |ls| && ls[i] == l;
        assert marks[i] == Isolated(l, visible, phys);
      }
    }
    forall i, j | 0 <= i < j < |ls| && Isolated(ls[i], visible, phys) && Isolated(ls[j], visible, phys)
      ensures exists a, b :: 0 <= a < b < |IsolatedLeptons(ls, visible, phys)| &&
                IsolatedLeptons(ls, visible, phys)[a] == ls[i] && IsolatedLeptons(ls, visible, phys)[b] == ls[j]
    {
      assert marks[i] && marks[j];
      KeptInOrder(ls, marks, i, j);
    }
  }
}
