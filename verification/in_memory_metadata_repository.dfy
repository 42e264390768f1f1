/**
 * The in-memory metadata repository: a single projection descriptor guarded
 * by its epoch. A proposal whose epoch argument is below the stored Epoch is
 * rejected; any other proposal replaces the whole descriptor.
 *
 * The descriptor's fields other than Epoch are not part of this model and are
 * carried as an uninterpreted `body`; the lock is left out (every operation is
 * one atomic step).
 */
module InMemoryMetadataRepository {
  import opened Types
  import opened Wrappers

  datatype Error = SealedEpoch

  datatype ProjectionDescriptor = ProjectionDescriptor(epoch: U64, body: seq<int>)

  /** The zero descriptor a new repository holds. */
  const ZeroDescriptor := ProjectionDescriptor(0, [])

  /** The effect of one Propose call on the stored descriptor, and its error. */
  function Proposed(current: ProjectionDescriptor, epoch: U64, projection: ProjectionDescriptor)
    : (r: (ProjectionDescriptor, Option<Error>))
    ensures epoch < current.epoch <==> r.1 == Some(SealedEpoch)
    ensures r.1.Some? ==> r.0 == current
    ensures r.1.None? ==> r.0 == projection
  {
    if epoch < current.epoch then (current, Some(SealedEpoch)) else (projection, None)
  }

  /** The descriptor after a series of proposals, each applied to the result of the previous one. */
  function ProposeAll(current: ProjectionDescriptor, proposals: seq<(U64, ProjectionDescriptor)>): ProjectionDescriptor {
    if proposals == [] then current
    else Proposed(ProposeAll(current, proposals[..|proposals| - 1]),
                  proposals[|proposals| - 1].0, proposals[|proposals| - 1].1).0
  }

  /** A proposal is consistent when the projection's own Epoch is at least the epoch it is proposed under. */
  predicate Consistent(p: (U64, ProjectionDescriptor)) {
    p.0 <= p.1.epoch
  }

  /**
   * When every proposal is consistent, the stored Epoch never decreases; and
   * the final descriptor is either the starting one or one of the proposed
   * projections.
   */
  lemma {:induction false} EpochNeverDecreases(current: ProjectionDescriptor, proposals: seq<(U64, ProjectionDescriptor)>)
    requires forall i | 0 <= i < |proposals| :: Consistent(proposals[i])
    ensures current.epoch <= ProposeAll(current, proposals).epoch
    ensures ProposeAll(current, proposals) == current
      || exists i :: 0 <= i < |proposals| && ProposeAll(current, proposals) == proposals[i].1
  {
    if proposals != [] {
      var prefix := proposals[..|proposals| - 1];
      assert forall i | 0 <= i < |prefix| :: prefix[i] == proposals[i];
      EpochNeverDecreases(current, prefix);
      var last := proposals[|proposals| - 1];
      assert Consistent(last);
      var before := ProposeAll(current, prefix);
      if Proposed(before, last.0, last.1).1.None? {
        assert ProposeAll(current, proposals) == proposals[|proposals| - 1].1;
      } else if before != current {
        var i :| 0 <= i < |prefix| && before == prefix[i].1;
        assert ProposeAll(current, proposals) == proposals[i].1;
      }
    }
  }

  /**
   * The stored Epoch is taken from the projection, not from the epoch
   * argument: proposing under epoch 5 a projection whose Epoch is 1 succeeds
   * on a repository at Epoch 3 and leaves it at Epoch 1.
   */
  lemma EpochComesFromProjection()
    ensures Proposed(ProjectionDescriptor(3, []), 5, ProjectionDescriptor(1, [7])) == (ProjectionDescriptor(1, [7]), None)
  {
  }

  class Repository {
    var descriptor: ProjectionDescriptor

    /** NewInMemoryMetadataRepository: Epoch 0. */
    constructor ()
      ensures descriptor == ZeroDescriptor && descriptor.epoch == 0
    {
      descriptor := ZeroDescriptor;
    }

    /** Propose: ErrSealedEpoch below the stored Epoch (nothing changes); otherwise the projection replaces the descriptor. */
    method Propose(epoch: U64, projection: ProjectionDescriptor) returns (err: Option<Error>)
      modifies this
      ensures (descriptor, err) == Proposed(old(descriptor), epoch, projection)
      ensures epoch < old(descriptor).epoch ==> err == Some(SealedEpoch) && descriptor == old(descriptor)
      ensures old(descriptor).epoch <= epoch ==> err.None? && descriptor == projection
    {
      if epoch < descriptor.epoch {
        return Some(SealedEpoch);
      }
      descriptor := projection;
      err := None;
    }

    /** Get: the stored descriptor, never an error. */
    method Get() returns (d: ProjectionDescriptor, err: Option<Error>)
      ensures d == descriptor && err.None?
    {
      return descriptor, None;
    }
  }
}
