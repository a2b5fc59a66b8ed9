/** The reservations of a planning attempt, in maps that are changed in place and cloned per search branch. */
module UsageMaps {
  import opened Types
  import opened Candidates
  import opened Ledger

  /** What the attempt consumes of one device, added up in place. */
  class Tally {
    var amounts: Amounts

    constructor (amounts: Amounts)
      ensures this.amounts == amounts
    {
      this.amounts := amounts;
    }

    method Add(more: Amounts)
      modifies this
      ensures amounts == Plus(old(amounts), more)
    {
      amounts := AddQuantities(amounts, more);
    }
  }

  lemma ReservesExclusive(before: Attempt, after: Attempt, g: Grant)
    requires g.consumed.None? && after == before.(exclusive := before.exclusive + {g.key})
    ensures after == Reserve(before, g)
  {
  }

  /** Reserving a share changes one entry and leaves the others. */
  lemma ReservesShare(before: Attempt, after: Attempt, g: Grant)
    requires g.consumed.Some? && after.exclusive == before.exclusive && after.shared == before.shared + {g.key}
    requires after.consumed.Keys == before.consumed.Keys + {g.key}
    requires forall k | k in before.consumed && k != g.key :: after.consumed[k] == before.consumed[k]
    requires after.consumed[g.key] ==
             Plus(if g.key in before.consumed then before.consumed[g.key] else map[], g.consumed.value)
    ensures after == Reserve(before, g)
  {
  }

  /** Reservations of the attempt in progress: two sets, and one tally object per shared device. */
  class AttemptUsage {
    var exclusive: set<Key>
    var shared: set<Key>
    var consumed: map<Key, Tally>
    ghost var Repr: set<object>

    constructor ()
      ensures Valid() && fresh(Repr) && consumed == map[] && Value() == NOTHING
    {
      exclusive, shared, consumed := {}, {}, map[];
      Repr := {this};
    }

    /** The tallies are part of the representation, and no two devices share one. */
    ghost predicate Valid()
      reads this, Repr
    {
      && this in Repr
      && (forall k | k in consumed :: consumed[k] in Repr)
      && (forall j, k | j in consumed && k in consumed && j != k :: consumed[j] != consumed[k])
    }

    function Value(): Attempt
      requires Valid()
      reads Repr
    {
      Attempt(exclusive, shared, map k | k in consumed :: consumed[k].amounts)
    }

    method Enter(k: Key, tally: Tally)
      requires Valid() && k !in consumed && tally !in Repr
      modifies this
      ensures Valid() && consumed == old(consumed)[k := tally] && Repr == old(Repr) + {tally}
      ensures exclusive == old(exclusive) && shared == old(shared)
    {
      consumed, Repr := consumed[k := tally], Repr + {tally};
    }

    /** The copy shares no tally with the original. */
    method Clone() returns (copy: AttemptUsage)
      requires Valid()
      ensures copy.Valid() && fresh(copy.Repr) && copy.Value() == Value()
    {
      copy := new AttemptUsage();
      copy.exclusive, copy.shared := exclusive, shared;
      var keys := consumed.Keys;
      while keys != {}
        invariant keys <= consumed.Keys && forall k :: k in copy.consumed <==> k in consumed && k !in keys
        invariant copy.Valid() && fresh(copy.Repr)
        invariant copy.exclusive == exclusive && copy.shared == shared
        invariant forall k | k in copy.consumed :: copy.consumed[k].amounts == consumed[k].amounts
        decreases keys
      {
        var k :| k in keys;
        var tally := new Tally(consumed[k].amounts);
        copy.Enter(k, tally);
        keys := keys - {k};
      }
    }

    /** The device's tally, new and empty if it had none. */
    method TallyFor(k: Key) returns (tally: Tally)
      requires Valid()
      modifies this
      ensures Valid() && fresh(Repr - old(Repr)) && exclusive == old(exclusive) && shared == old(shared)
      ensures consumed == old(consumed)[k := tally]
      ensures if k in old(consumed) then tally == old(consumed)[k] else fresh(tally) && tally.amounts == map[]
    {
      if k !in consumed {
        tally := new Tally(map[]);
        Enter(k, tally);
        return;
      }
      tally := consumed[k];
      assert consumed == consumed[k := tally];
    }

    method ReserveGrant(g: Grant)
      requires Valid()
      modifies Repr
      ensures Valid() && fresh(Repr - old(Repr)) && Value() == Reserve(old(Value()), g)
    {
      hide Reserve;
      ghost var before := Value();
      if g.consumed.None? {
        exclusive := exclusive + {g.key};
        ReservesExclusive(before, Value(), g);
        return;
      }
      shared := shared + {g.key};
      AddTo(g.key, g.consumed.value);
      ReservesShare(before, Value(), g);
    }

    /** Adds to one device's tally, which no other device shares. */
    method AddTo(k: Key, more: Amounts)
      requires Valid()
      modifies Repr
      ensures Valid() && fresh(Repr - old(Repr)) && exclusive == old(exclusive) && shared == old(shared)
      ensures consumed.Keys == old(consumed.Keys) + {k}
      ensures forall j | j in old(consumed) && j != k :: consumed[j].amounts == old(consumed[j].amounts)
      ensures consumed[k].amounts == Plus(if k in old(consumed) then old(consumed[k].amounts) else map[], more)
    {
      hide Plus;
      var tally := TallyFor(k);
      tally.Add(more);
    }
  }
}
