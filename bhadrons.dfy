/**
 * B-hadron identification: among the unstable particles, keep a particle that
 * carries bottom only when it has direct decay products and none of them
 * carries bottom, i.e. the last bottom hadron of a decay chain.
 */
module BHadronFilter {
  import opened Objects
  import opened Sequences

  /**
   * Every bottom-flavoured unstable particle has an end vertex. The
   * selection follows the end vertex of such a particle without testing it,
   * so this is what it demands of its input.
   */
  predicate DecaysRecorded(us: seq<UnstableParticle>, phys: Physics)
  {
    forall i :: 0 <= i < |us| && phys.hasBottom(us[i].particle.pid) ==> us[i].decayProducts.Some?
  }

  /** `u` carries bottom, has at least one direct decay product, and no decay product carries bottom. */
  predicate IsFinalBHadron(u: UnstableParticle, phys: Physics)
  {
    && phys.hasBottom(u.particle.pid)
    && match u.decayProducts
       case None => false
       case Some(products) =>
         |products| > 0 && forall c :: 0 <= c < |products| ==> !phys.hasBottom(products[c])
  }

  function BHadronMarks(us: seq<UnstableParticle>, phys: Physics): seq<bool>
  {
    seq(|us|, i requires 0 <= i < |us| => IsFinalBHadron(us[i], phys))
  }

  /** The B hadrons of `us`, in the order of `us`. */
  function BHadrons(us: seq<UnstableParticle>, phys: Physics): seq<UnstableParticle>
  {
    Select(us, BHadronMarks(us, phys), true)
  }

  lemma BHadronsSnoc(us: seq<UnstableParticle>, u: UnstableParticle, phys: Physics)
    ensures BHadrons(us + [u], phys) == BHadrons(us, phys) + (if IsFinalBHadron(u, phys) then [u] else [])
  {
    assert BHadronMarks(us + [u], phys) == BHadronMarks(us, phys) + [IsFinalBHadron(u, phys)];
    SelectSnoc(us, BHadronMarks(us, phys), u, IsFinalBHadron(u, phys), true);
  }

  /** The loop over the unstable particles and, for each bottom one, over its decay products. */
  method FindBHadrons(us: seq<UnstableParticle>, phys: Physics) returns (bhadrons: seq<UnstableParticle>)
    requires DecaysRecorded(us, phys)
    ensures bhadrons == BHadrons(us, phys)
  {
    bhadrons := [];
    for i := 0 to |us|
      invariant bhadrons == BHadrons(us[..i], phys)
    {
      var p := us[i];
      BHadronsSnoc(us[..i], p, phys);
      assert us[..i + 1] == us[..i] + [p];
      var pid := p.particle.pid;
      if phys.hasBottom(pid) {
        var goodB := false;
        var products := p.decayProducts.value;
        var k := 0;
        while k < |products|
          invariant 0 <= k <= |products|
          invariant goodB == (k > 0)
          invariant forall m :: 0 <= m < k ==> !phys.hasBottom(products[m])
        {
          if !phys.hasBottom(products[k]) {
            goodB := true;
            k := k + 1;
            continue;
          } else {
            goodB := false;
            break;
          }
        }
        if goodB {
          bhadrons := bhadrons + [p];
        }
      }
    }
    assert us[..|us|] == us;
  }

  /**
   * A particle enters the B-hadron list iff it carries bottom, has at least
   * one direct decay product, and no direct decay product carries bottom (a
   * bottom particle without decay products is rejected); the list keeps the
   * input order and repeats nothing.
   */
  lemma BHadronsKeepsExactly(us: seq<UnstableParticle>, phys: Physics)
    ensures forall u :: u in BHadrons(us, phys) <==>
              u in us && phys.hasBottom(u.particle.pid) && u.decayProducts.Some? &&
              |u.decayProducts.value| > 0 &&
              forall c :: c in u.decayProducts.value ==> !phys.hasBottom(c)
    ensures forall i, k :: 0 <= i < k < |us| && IsFinalBHadron(us[i], phys) && IsFinalBHadron(us[k], phys) ==>
              exists a, b :: 0 <= a < b < |BHadrons(us, phys)| &&
                BHadrons(us, phys)[a] == us[i] && BHadrons(us, phys)[b] == us[k]
    ensures multiset(BHadrons(us, phys)) <= multiset(us)
  {
    var marks := BHadronMarks(us, phys);
    SelectExact(us, marks, true);
    forall u
      ensures u in BHadrons(us, phys) <==>
              u in us && phys.hasBottom(u.particle.pid) && u.decayProducts.Some? &&
              |u.decayProducts.value| > 0 &&
              forall c :: c in u.decayProducts.value ==> !phys.hasBottom(c)
    {
      if u in us {
        var i :| 0 <= i < |us| && us[i] == u;
        assert marks[i] == IsFinalBHadron(u, phys);
        if u.decayProducts.Some? {
          var products := u.decayProducts.value;
          if forall c :: 0 <= c < |products| ==> !phys.hasBottom(products[c]) {
            forall c | c in products ensures !phys.hasBottom(c) {
              var m :| 0 <= m < |products| && products[m] == c;
            }
          }
          if forall c :: c in products ==> !phys.hasBottom(c) {
            forall m | 0 <= m < |products| ensures !phys.hasBottom(products[m]) {
              assert products[m] in products;
            }
          }
        }
      }
    }
    forall i, k | 0 <= i < k < |us| && IsFinalBHadron(us[i], phys) && IsFinalBHadron(us[k], phys)
      ensures exists a, b :: 0 <= a < b < |BHadrons(us, phys)| &&
                BHadrons(us, phys)[a] == us[i] && BHadrons(us, phys)[b] == us[k]
    {
      assert marks[i] && marks[k];
      KeptInOrder(us, marks, i, k);
    }
  }
}
