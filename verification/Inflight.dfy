/**
 Listings that run while objects change. A listing must not be trusted about a key whose
 change it may have missed: one that was in progress at some moment of the listing.
 */
module Inflight {

  datatype Event = BeginChange(key: string) | EndChange(key: string) | BeginListing(id: int) | EndListing(id: int)

  function Begun(trace: seq<Event>, key: string): nat
  {
    if trace == [] then 0
    else Begun(trace[..|trace| - 1], key) + if trace[|trace| - 1] == BeginChange(key) then 1 else 0
  }

  function Ended(trace: seq<Event>, key: string): nat
  {
    if trace == [] then 0
    else Ended(trace[..|trace| - 1], key) + if trace[|trace| - 1] == EndChange(key) then 1 else 0
  }

  /** Some change of `key` is in progress after `trace`. */
  predicate Open(trace: seq<Event>, key: string)
  {
    Begun(trace, key) > Ended(trace, key)
  }

  /** Some change of `key` overlaps what happened in `trace` since `start`. */
  ghost predicate Overlaps(trace: seq<Event>, start: nat, key: string)
  {
    start <= |trace|
      && (Open(trace[..start], key) || exists i: int :: start <= i < |trace| && trace[i] == BeginChange(key))
  }

  /** One more event adds its key to what overlaps exactly when it begins a change. */
  lemma OverlapsStep(trace: seq<Event>, start: nat, e: Event, key: string)
    requires start <= |trace|
    ensures Overlaps(trace + [e], start, key) <==> Overlaps(trace, start, key) || e == BeginChange(key)
  {
    var more := trace + [e];
    assert more[..start] == trace[..start] && more[|trace|] == e;
    if i: int :| start <= i < |trace| && trace[i] == BeginChange(key) { assert more[i] == BeginChange(key); }
    if i: int :| start <= i < |more| && more[i] == BeginChange(key) {
      assert i < |trace| ==> trace[i] == BeginChange(key);
    }
  }

  lemma CountStep(trace: seq<Event>, e: Event, key: string)
    ensures Begun(trace + [e], key) == Begun(trace, key) + if e == BeginChange(key) then 1 else 0
    ensures Ended(trace + [e], key) == Ended(trace, key) + if e == EndChange(key) then 1 else 0
  {
    assert (trace + [e])[..|trace|] == trace;
  }

  /** At every moment no more changes have ended than begun. */
  ghost predicate Matched(trace: seq<Event>, key: string)
  {
    forall t: int :: 0 <= t <= |trace| ==> Ended(trace[..t], key) <= Begun(trace[..t], key)
  }

  lemma MatchedStep(trace: seq<Event>, e: Event, key: string)
    requires Matched(trace, key) && Ended(trace + [e], key) <= Begun(trace + [e], key)
    ensures Matched(trace + [e], key)
  {
    var more := trace + [e];
    forall t: int | 0 <= t <= |more| ensures Ended(more[..t], key) <= Begun(more[..t], key) {
      if t <= |trace| { assert more[..t] == trace[..t]; } else { assert more[..t] == more; }
    }
  }

  /** What overlaps a listing was in progress at some moment of it. */
  lemma OverlapsExactly(trace: seq<Event>, start: nat, key: string)
    requires start <= |trace| && Matched(trace, key)
    ensures Overlaps(trace, start, key) <==> exists t: int :: start <= t <= |trace| && Open(trace[..t], key)
  {
    if i: int :| start <= i < |trace| && trace[i] == BeginChange(key) {
      assert trace[..i + 1] == trace[..i] + [trace[i]];
      CountStep(trace[..i], trace[i], key);
      assert Ended(trace[..i], key) <= Begun(trace[..i], key);
      assert Open(trace[..i + 1], key);
    }
    if t: int :| start <= t <= |trace| && Open(trace[..t], key) { OpenSince(trace, start, t, key); }
  }

  /** A change in progress at `t` was so at `start`, or began in between. */
  lemma {:induction false} OpenSince(trace: seq<Event>, start: nat, t: nat, key: string)
    requires start <= t <= |trace| && Open(trace[..t], key)
    ensures Overlaps(trace, start, key)
  {
    if t > start {
      assert trace[..t] == trace[..t - 1] + [trace[t - 1]];
      CountStep(trace[..t - 1], trace[t - 1], key);
      if trace[t - 1] != BeginChange(key) { OpenSince(trace, start, t - 1, key); }
    }
  }

  class InflightMaps {
    var inflightChanges: map<string, nat>
    var inflightListings: map<int, set<string>>
    var inflightListingId: nat

    /** Everything that happened, and where each listing in progress began. */
    ghost var trace: seq<Event>
    ghost var started: map<int, nat>

    ghost predicate ChangesOk(key: string)
      reads this
    {
      && Matched(trace, key) && Ended(trace, key) <= Begun(trace, key)
      && (key in inflightChanges <==> Open(trace, key))
      && (key in inflightChanges ==> inflightChanges[key] == Begun(trace, key) - Ended(trace, key))
    }

    ghost predicate ListingOk(id: int)
      reads this
    {
      id in inflightListings ==>
        && id <= inflightListingId && id in started && started[id] <= |trace|
        && forall key: string :: key in inflightListings[id] <==> Overlaps(trace, started[id], key)
    }

    ghost predicate Valid()
      reads this
    {
      && (forall key: string {:trigger ChangesOk(key)} :: ChangesOk(key))
      && (forall id: int {:trigger ListingOk(id)} :: ListingOk(id))
    }

    constructor ()
      ensures Valid() && trace == [] && inflightListings == map[] && inflightListingId == 0
    {
      inflightChanges, inflightListings, inflightListingId := map[], map[], 0;
      trace, started := [], map[];
    }

    method AddInflightChange(key: string)
      requires Valid()
      modifies this
      ensures Valid() && trace == old(trace) + [BeginChange(key)] && started == old(started)
      ensures inflightListings.Keys == old(inflightListings.Keys) && inflightListingId == old(inflightListingId)
    {
      ghost var changes, listings, past := inflightChanges, inflightListings, trace;
      assert ChangesOk(key);
      inflightChanges := inflightChanges[key := (if key in inflightChanges then inflightChanges[key] else 0) + 1];
      inflightListings := map id | id in inflightListings :: inflightListings[id] + {key};
      trace := trace + [BeginChange(key)];
      forall k: string ensures ChangesOk(k) {
        assert old(ChangesOk(k));
        CountStep(past, BeginChange(key), k);
        MatchedStep(past, BeginChange(key), k);
      }
      forall id: int ensures ListingOk(id) {
        assert old(ListingOk(id));
        if id in inflightListings {
          forall k: string { OverlapsStep(past, started[id], BeginChange(key), k); }
        }
      }
    }

    /** Callers end only changes they began. */
    method CompleteInflightChange(key: string)
      requires Valid() && Open(trace, key)
      modifies this
      ensures Valid() && trace == old(trace) + [EndChange(key)] && started == old(started)
      ensures inflightListings.Keys == old(inflightListings.Keys) && inflightListingId == old(inflightListingId)
    {
      ghost var past := trace;
      assert ChangesOk(key);
      inflightChanges := inflightChanges[key := inflightChanges[key] - 1];
      if inflightChanges[key] <= 0 {
        inflightChanges := inflightChanges - {key};
      }
      trace := trace + [EndChange(key)];
      forall k: string ensures ChangesOk(k) {
        assert old(ChangesOk(k));
        CountStep(past, EndChange(key), k);
        MatchedStep(past, EndChange(key), k);
      }
      forall id: int ensures ListingOk(id) {
        assert old(ListingOk(id));
        if id in inflightListings {
          forall k: string { OverlapsStep(past, started[id], EndChange(key), k); }
        }
      }
    }

    method AddInflightListing() returns (id: nat)
      requires Valid()
      modifies this
      ensures Valid() && id == old(inflightListingId) + 1 && trace == old(trace) + [BeginListing(id)]
      ensures started == old(started)[id := |trace|] && inflightListings.Keys == old(inflightListings.Keys) + {id}
      ensures id !in old(inflightListings) && inflightListingId == id
    {
      ghost var past := trace;
      assert ListingOk(inflightListingId + 1);
      inflightListingId := inflightListingId + 1;
      id := inflightListingId;
      var m := set k | k in inflightChanges;
      inflightListings := inflightListings[id := m];
      trace := trace + [BeginListing(id)];
      started := started[id := |trace|];
      forall k: string ensures ChangesOk(k) {
        assert old(ChangesOk(k));
        CountStep(past, BeginListing(id), k);
        MatchedStep(past, BeginListing(id), k);
      }
      forall i: int ensures ListingOk(i) {
        assert old(ListingOk(i));
        if i == id {
          forall k: string ensures k in m <==> Overlaps(trace, started[i], k) {
            assert ChangesOk(k) && trace[..|trace|] == trace;
          }
        } else if i in inflightListings {
          forall k: string { OverlapsStep(past, started[i], BeginListing(id), k); }
        }
      }
    }

    /** The keys to leave out of a listing: exactly those changed at some moment of it. */
    method CompleteInflightListing(id: int) returns (m: set<string>)
      requires Valid() && id in inflightListings
      modifies this
      ensures Valid() && trace == old(trace) + [EndListing(id)] && id in old(started) && started == old(started)
      ensures inflightListings.Keys == old(inflightListings.Keys) - {id} && inflightListingId == old(inflightListingId)
      ensures var start := old(started)[id];
              forall key: string ::
                key in m <==> exists t: int :: start <= t <= |old(trace)| && Open(old(trace)[..t], key)
    {
      ghost var past := trace;
      assert ListingOk(id);
      m := inflightListings[id];
      forall key: string
        ensures key in m <==> exists t: int :: started[id] <= t <= |trace| && Open(trace[..t], key)
      {
        assert ChangesOk(key);
        OverlapsExactly(trace, started[id], key);
      }
      inflightListings := inflightListings - {id};
      trace := trace + [EndListing(id)];
      forall k: string ensures ChangesOk(k) {
        assert old(ChangesOk(k));
        CountStep(past, EndListing(id), k);
        MatchedStep(past, EndListing(id), k);
      }
      forall i: int ensures ListingOk(i) {
        assert old(ListingOk(i));
        if i in inflightListings {
          forall k: string { OverlapsStep(past, started[i], EndListing(id), k); }
        }
      }
    }
  }
}
