/** Score maps and the crediting step of query evaluation: documents
    visited for a term receive an entry, starting at zero, and are credited
    that term's gain. */
module Scoring {

  /** The score map after crediting each document of `done` with `gain`:
      a document without an entry starts at 0, every other entry of `acc`
      is kept. */
  function Credit(acc: map<nat, real>, done: set<nat>, gain: nat -> real): (r: map<nat, real>)
    ensures forall id :: id in r <==> id in acc || id in done
    ensures forall id :: id in acc && id !in done ==> r[id] == acc[id]
  {
    map id | id in acc.Keys + done ::
      (if id in acc then acc[id] else 0.0) + (if id in done then gain(id) else 0.0)
  }

  /** Crediting no document leaves the score map as it was. */
  lemma CreditNothing(acc: map<nat, real>, gain: nat -> real)
    ensures Credit(acc, {}, gain) == acc
  {
    assert Credit(acc, {}, gain).Keys == acc.Keys;
  }

  /** Crediting one more document is one map update: its entry, or 0 when
      it has none, plus its gain. */
  lemma CreditStep(acc: map<nat, real>, done: set<nat>, gain: nat -> real, id: nat)
    requires id !in done
    ensures var before := Credit(acc, done, gain);
      Credit(acc, done + {id}, gain)
      == before[id := (if id in before then before[id] else 0.0) + gain(id)]
  {
    var before := Credit(acc, done, gain);
    var after := Credit(acc, done + {id}, gain);
    var step := before[id := (if id in before then before[id] else 0.0) + gain(id)];
    assert after.Keys == step.Keys;
    forall k | k in after
      ensures after[k] == step[k]
    {
      if k != id {
        assert k in before;
        assert after[k] == before[k];
      } else {
        assert after[id] == (if id in acc then acc[id] else 0.0) + gain(id);
        assert id in before <==> id in acc;
        assert id in before ==> before[id] == acc[id] + 0.0;
      }
    }
  }

  /** The visiting loop: the ids of `ids` are taken in an unspecified order
      (a hash set's), each given an entry starting at 0 when it has none,
      then credited its gain. The order does not show in the result. */
  method CreditAll(acc0: map<nat, real>, ids: set<nat>, gain: nat -> real) returns (acc: map<nat, real>)
    ensures acc == Credit(acc0, ids, gain)
  {
    acc := acc0;
    var done: set<nat> := {};
    CreditNothing(acc0, gain);
    while ids - done != {}
      invariant done <= ids
      invariant acc == Credit(acc0, done, gain)
      decreases ids - done
    {
      var id :| id in ids - done;
      CreditStep(acc0, done, gain, id);
      if id !in acc {
        acc := acc[id := 0.0];
      }
      acc := acc[id := acc[id] + gain(id)];
      done := done + {id};
    }
    assert done == ids;
  }
}
