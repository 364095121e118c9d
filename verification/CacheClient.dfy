/**
 The critical sections of utils/cache/flight.go as code on the client's mutable registry,
 proved against the specification functions of CacheFlights.
 */
module CacheClient {
  import opened Common
  import opened CacheFlights

  /** The part of Client guarded by Client.mu, with the flights it points to. */
  class Client {
    var flights: map<Key, nat>
    var arena: seq<Flight>

    constructor ()
      ensures flights == map[] && arena == []
    {
      flights, arena := map[], [];
    }

    /** First section of loadBatch: join what is already in flight. */
    method JoinExisting(keys: seq<Key>) returns (calls: map<Key, nat>)
      ensures calls == Joined(flights, keys)
    {
      calls := map[];
      for i := 0 to |keys|
        invariant calls == Joined(flights, keys[..i])
      {
        assert keys[..i + 1] == keys[..i] + [keys[i]];
        if keys[i] in flights {
          calls := calls[keys[i] := flights[keys[i]]];
        }
      }
      assert keys[..|keys|] == keys;
    }

    /** Second section of loadBatch: register a flight for every key nobody is loading. */
    method RegisterLeaders(c: nat, keys: seq<Key>, joined: map<Key, nat>)
      returns (calls: map<Key, nat>, owned: map<Key, nat>, leaders: seq<Key>)
      modifies this
      ensures Registry(flights, arena, calls, owned)
        == RegisterAll(c, Registry(old(flights), old(arena), joined, map[]), keys)
      ensures Elements(leaders) == owned.Keys && Distinct(leaders)
      ensures owned == map[] <==> leaders == []
    {
      calls, owned, leaders := joined, map[], [];
      ghost var r0 := Registry(flights, arena, joined, map[]);
      for i := 0 to |keys|
        invariant Registry(flights, arena, calls, owned) == RegisterAll(c, r0, keys[..i])
        invariant Elements(leaders) == owned.Keys && Distinct(leaders)
        invariant forall k | k in owned :: k in calls
      {
        assert keys[..i + 1][..i] == keys[..i] && keys[..i + 1][i] == keys[i];
        var key := keys[i];
        if key !in calls {
          if key !in flights {
            arena, flights := arena + [Open(key, ByCaller(c))], flights[key := |arena|];
            owned := owned[key := flights[key]];
            SnocElements(leaders, key);
            leaders := leaders + [key];
          }
          calls := calls[key := flights[key]];
        }
      }
      assert keys[..|keys|] == keys;
      if leaders != [] {
        assert leaders[0] in Elements(leaders);
      }
      if leaders == [] {
        assert Elements(leaders) == {};
      }
    }

    /**
     The supervisor's closing section. Flights are visited in any order (Go ranges over a
     map); each is found open, gets its value, leaves the registry and is closed.
    */
    method CloseFlights(owned: map<Key, nat>, values: map<Key, FlightValue>)
      requires forall k | k in owned :: owned[k] < |arena| && arena[owned[k]].Open? && arena[owned[k]].key == k
      requires forall k | k in owned :: k in flights && flights[k] == owned[k]
      modifies this
      ensures flights == old(flights) - owned.Keys
      ensures arena == ClosedArena(old(arena), owned, values)
    {
      var todo := owned.Keys;
      ghost var a0, f0 := arena, flights;
      while todo != {}
        invariant todo <= owned.Keys
        invariant flights == f0 - (owned.Keys - todo)
        invariant |arena| == |a0|
        invariant forall k | k in todo :: arena[owned[k]] == a0[owned[k]]
        invariant forall k | k in owned && k !in todo :: arena[owned[k]] == Done(k, ValueFor(values, k))
        invariant forall f | 0 <= f < |arena| && f !in owned.Values :: arena[f] == a0[f]
      {
        var key :| key in todo;
        assert arena[owned[key]].Open?;  // closing twice would panic
        assert flights[key] == owned[key];  // never another generation's registration
        arena := arena[owned[key] := Done(key, ValueFor(values, key))];
        flights := flights - {key};
        todo := todo - {key};
      }
      forall f | 0 <= f < |arena| ensures arena[f] == ClosedArena(a0, owned, values)[f] {
        if f in owned.Values {
          var k :| k in owned && owned[k] == f;
        }
      }
    }
  }
}
