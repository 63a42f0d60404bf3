/**
 * The per-type sets of reserved replicator IDs (AmorLib/Networking/StateReplicatorManager.cs).
 * A replicated state type is known here by an opaque `TypeKey`; each key's
 * hash set of reserved IDs is a `set` stored in the dictionary and replaced
 * whole whenever the source would mutate it. Each `ReserveIds` call reports,
 * in order, the IDs it skipped because they were already reserved: the source
 * logs an error for each of them.
 */
module ReplicatorManager {
  import opened Transport
  import opened Collections

  type TypeKey(==)

  class Manager {
    var reserved: map<TypeKey, set<uint32>>

    constructor ()
      ensures reserved == map[]
    {
      reserved := map[];
    }

    /**
     * Adds every ID of `args` to the set of `t`, creating the set when `t` has
     * none yet. An ID already in the set when its turn comes (reserved before,
     * or repeated in `args`) is skipped and reported in `skipped`.
     */
    method ReserveIds(t: TypeKey, args: seq<uint32>) returns (skipped: seq<uint32>)
      modifies this
      ensures t in reserved
      ensures reserved == old(reserved)[t := old(Reserved(t)) + set id | id in args]
      ensures forall id | id in skipped :: id in args
      ensures |skipped| + |reserved[t]| == |old(Reserved(t))| + |args|
      ensures forall id | id in skipped :: id in old(Reserved(t)) || Repeated(args, id)
    {
      ghost var start := Reserved(t);
      var (dict, ids) := GetOrAddNew(reserved, t, {});
      assert ids == start;
      skipped := [];
      for i := 0 to |args|
        invariant start <= ids && forall j | 0 <= j < i :: args[j] in ids
        invariant forall id | id in ids :: id in start || id in args[..i]
        invariant |skipped| + |ids| == |start| + i
        invariant forall id | id in skipped :: id in args[..i] && (id in start || Repeated(args, id))
      {
        var id := args[i];
        assert args[..i + 1] == args[..i] + [id];
        if id in ids {
          if id !in start {
            var j :| 0 <= j < i && args[j] == id;
            assert Repeated(args, id);
          }
          skipped := skipped + [id];
        } else {
          ids := ids + {id};
        }
      }
      assert args[..|args|] == args;
      AllReserved(start, args, ids);
      // The set lives in the dictionary, so every addition shows there.
      reserved := dict[t := ids];
    }

    /** Removes every ID of `args` from the set of `t`; nothing at all when `t` has no set. */
    method DeregisterIds(t: TypeKey, args: seq<uint32>)
      modifies this
      ensures t !in old(reserved) ==> reserved == old(reserved)
      ensures t in old(reserved) ==> reserved == old(reserved)[t := old(reserved[t]) - set id | id in args]
    {
      if t !in reserved {
        return;
      }
      var ids := reserved[t];
      for i := 0 to |args|
        invariant ids == old(reserved[t]) - set id | id in args[..i]
      {
        assert args[..i + 1] == args[..i] + [args[i]];
        ids := ids - {args[i]};
      }
      assert args[..|args|] == args;
      // The set lives in the dictionary, so every removal shows there.
      reserved := reserved[t := ids];
    }

    /** The IDs reserved for `t` so far; none when `t` has no set. */
    function Reserved(t: TypeKey): set<uint32>
      reads this
    {
      if t in reserved then reserved[t] else {}
    }
  }

  /** A set holding `start`, every ID of `args` and nothing else is their union. */
  lemma AllReserved(start: set<uint32>, args: seq<uint32>, ids: set<uint32>)
    requires start <= ids && forall j | 0 <= j < |args| :: args[j] in ids
    requires forall id | id in ids :: id in start || id in args
    ensures ids == start + set id | id in args
  {
    forall id | id in args ensures id in ids {
      var j :| 0 <= j < |args| && args[j] == id;
    }
  }

  /** `id` occurs at two positions of `args`. */
  predicate Repeated(args: seq<uint32>, id: uint32) {
    exists i, j | 0 <= i < j < |args| :: args[i] == id && args[j] == id
  }
}
