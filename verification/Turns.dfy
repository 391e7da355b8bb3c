/** The turn table, a taking's release, and an attempt's hold, as they are in memory. */
module Turns {
  import opened JsonValue
  import opened TurnSystem

  // A key's release channel, as a number no other taking was given.
  type Channel = nat

  lemma TakeNone(owners: map<Key, Holder>, h: Holder)
    ensures Take(owners, [], h) == owners
  {}

  lemma TakeMore(owners: map<Key, Holder>, keys: seq<Key>, i: nat, h: Holder)
    requires i < |keys|
    ensures Take(owners, keys[..i + 1], h) == Take(owners, keys[..i], h)[keys[i] := h]
  {
    assert keys[..i + 1] == keys[..i] + [keys[i]];
  }

  class Table {
    var held: map<Key, Channel>
    var made: Channel
    // Who each channel was made for.
    ghost var owners: map<Key, Holder>

    ghost predicate Valid()
      reads this
    {
      held.Keys == owners.Keys
    }

    constructor ()
      ensures Valid() && owners == map[]
    {
      held, made, owners := map[], 0, map[];
    }

    /** tryTake: every key if all are free, else none and a channel to wait on. */
    method TryTake(keys: seq<Key>, ghost h: Holder) returns (took: bool, changed: Option<Channel>)
      requires Valid()
      modifies this
      ensures Valid()
      ensures took == Free(old(owners), keys)
      ensures took ==> owners == Take(old(owners), keys, h)
      ensures !took ==> owners == old(owners) && held == old(held)
      ensures !took ==> changed.Some? && exists k :: k in keys && k in held && held[k] == changed.value
    {
      hide Take, Free;
      changed := FirstHeld(keys);
      if changed.Some? { return false, changed; }
      TakeNone(owners, h);
      for i := 0 to |keys|
        invariant Valid() && owners == Take(old(owners), keys[..i], h)
      {
        TakeMore(old(owners), keys, i, h);
        held := held[keys[i] := made];
        owners := owners[keys[i] := h];
        made := made + 1;
      }
      assert keys[..|keys|] == keys;
      took := true;
    }

    /** The channel of the first key someone holds. */
    method FirstHeld(keys: seq<Key>) returns (c: Option<Channel>)
      requires Valid()
      ensures c.None? <==> Free(owners, keys)
      ensures c.Some? ==> exists k :: k in keys && k in held && held[k] == c.value
    {
      for i := 0 to |keys|
        invariant forall k :: k in keys[..i] ==> k !in held
      {
        if keys[i] in held {
          assert keys[i] in keys && keys[i] in owners;
          return Some(held[keys[i]]);
        }
      }
      assert keys[..|keys|] == keys;
      c := None;
    }

    /** give: drops every one of the keys, whoever holds it. */
    method Drop(keys: seq<Key>)
      requires Valid()
      modifies this
      ensures Valid() && owners == old(owners) - (set k | k in keys)
    {
      for i := 0 to |keys|
        invariant Valid() && owners == old(owners) - (set k | k in keys[..i])
      {
        assert keys[..i + 1] == keys[..i] + [keys[i]];
        held := held - {keys[i]};
        owners := owners - {keys[i]};
      }
      assert keys[..|keys|] == keys;
    }
  }

  /** What Acquire returns: a release that acts once. */
  class Release {
    const table: Table
    const keys: seq<Key>
    ghost const holder: Holder
    var once: bool

    /** Until it has run, its keys are exactly the ones its taking holds. */
    ghost predicate Valid()
      reads this, table
    {
      table.Valid() && (!once ==> forall k :: k in keys <==> k in table.owners && table.owners[k] == holder)
    }

    constructor (table: Table, keys: seq<Key>, ghost holder: Holder)
      requires table.Valid() && forall k :: k in keys <==> k in table.owners && table.owners[k] == holder
      ensures Valid() && this.table == table && this.keys == keys && this.holder == holder && !once
    {
      this.table, this.keys, this.holder, once := table, keys, holder, false;
    }

    /** The first call gives back this taking's turns and nobody else's; later calls do nothing. */
    method Run()
      requires Valid()
      modifies this, table
      ensures Valid() && once
      ensures table.owners == if old(once) then old(table.owners) else Give(old(table.owners), holder)
      ensures old(once) ==> table.held == old(table.held)
    {
      if !once {
        once := true;
        table.Drop(keys);
      }
    }
  }

  /** attemptTurn: a hold on turns, with the failure delay it must last. */
  class AttemptTurn {
    const release: Release
    var hold: nat
    var since: nat

    constructor (release: Release)
      ensures this.release == release && hold == 0
    {
      this.release, hold, since := release, 0, 0;
    }

    method HoldFor(d: nat, now: nat)
      modifies this
      ensures hold == d && since == now
    {
      hold, since := d, now;
    }

    /** done: gives the turns back, or says when a timer will. */
    method Done(now: nat) returns (timer: Option<nat>)
      requires release.Valid() && since <= now
      modifies release, release.table
      ensures release.Valid()
      ensures timer == if hold == 0 || since + hold <= now then None else Some(since + hold)
      ensures timer.None? ==> release.once
      ensures timer.None? ==>
        release.table.owners ==
          if old(release.once) then old(release.table.owners) else Give(old(release.table.owners), release.holder)
      ensures timer.Some? ==>
        release.table.owners == old(release.table.owners) && release.once == old(release.once)
    {
      if hold == 0 {
        release.Run();
        return None;
      }
      var left := hold - (now - since);
      if left > 0 { return Some(now + left); }
      release.Run();
      timer := None;
    }
  }
}
