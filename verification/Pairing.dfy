/** The HomeKit services on top of the store: keeping issuers in step with pairings, and
    adding and removing device credentials. */
module Pairing {
  import opened Wrappers
  import opened KeyedLists
  import opened KeyStoring

  // ----- Pairing -----

  function PublicKeys(s: seq<Issuer>): set<Bytes> {
    set x | x in s :: x.publicKey
  }

  /** No two of the keys share an issuer id. */
  ghost predicate InjectiveOn(ids: Ids, keys: set<Bytes>) {
    forall p, q :: p in keys && q in keys && ids.issuer(p) == ids.issuer(q) ==> p == q
  }

  /** Nothing is to be removed. */
  ghost predicate AllPaired(s: seq<Issuer>, keys: set<Bytes>) {
    PublicKeys(s) <= keys
  }

  lemma KeyIsPaired(s: seq<Issuer>, keys: set<Bytes>, n: nat)
    requires n < |s| && s[n].publicKey !in keys
    ensures !AllPaired(s, keys)
  {
    assert s[n].publicKey in PublicKeys(s);
  }

  /** The issuers whose key is still paired, in order. */
  function Kept(s: seq<Issuer>, keys: set<Bytes>): seq<Issuer>
    decreases |s|
  {
    if s == [] then []
    else Kept(s[..|s| - 1], keys) + (if s[|s| - 1].publicKey in keys then [s[|s| - 1]] else [])
  }

  lemma {:induction false} KeptMember(s: seq<Issuer>, keys: set<Bytes>, x: Issuer)
    ensures x in Kept(s, keys) <==> x in s && x.publicKey in keys
    decreases |s|
  {
    if s != [] {
      KeptMember(s[..|s| - 1], keys, x);
      assert s == s[..|s| - 1] + [s[|s| - 1]];
    }
  }

  /** The first `n` issuers are filtered, the others still as they were. */
  function HalfKept(all: seq<Issuer>, n: nat, keys: set<Bytes>): seq<Issuer>
    requires n <= |all|
  {
    Kept(all[..n], keys) + all[n..]
  }

  lemma HalfKeptEnds(all: seq<Issuer>, keys: set<Bytes>)
    ensures HalfKept(all, 0, keys) == all && HalfKept(all, |all|, keys) == Kept(all, keys)
  {
    assert all[..0] == [] && [] + all[0..] == all;
    assert all[..|all|] == all && Kept(all, keys) + [] == Kept(all, keys);
  }

  /** Removing an unpaired issuer from a half-filtered list filters one item more. */
  lemma RemovalFilters(ids: Ids, all: seq<Issuer>, n: nat, keys: set<Bytes>)
    requires n < |all| && Distinct(IssuerId(ids), HalfKept(all, n, keys))
    ensures HalfKept(all, n + 1, keys) ==
            if all[n].publicKey in keys then HalfKept(all, n, keys)
            else Without(IssuerId(ids), HalfKept(all, n, keys), ids.issuer(all[n].publicKey))
  {
    var k := Kept(all[..n], keys);
    assert all[..n + 1][..n] == all[..n];
    if all[n].publicKey in keys {
      assert k + [all[n]] + all[n + 1..] == k + all[n..];
    } else {
      assert k + all[n..] == k + [all[n]] + all[n + 1..];
      WithoutOne(IssuerId(ids), k, all[n], all[n + 1..]);
    }
  }

  lemma {:induction false} WithoutOne<T>(key: T -> Bytes, a: seq<T>, x: T, b: seq<T>)
    requires Distinct(key, a + [x] + b)
    ensures Without(key, a + [x] + b, key(x)) == a + b
    decreases |b|
  {
    var s := a + [x] + b;
    if b == [] {
      assert s[..|s| - 1] == a && a + b == a;
      assert !Has(key, a, key(x)) by {
        forall i | 0 <= i < |a| ensures key(a[i]) != key(x) {
          assert s[i] == a[i] && s[|a|] == x;
        }
      }
      WithoutNothing(key, a, key(x));
    } else {
      var c := b[..|b| - 1];
      assert s[..|s| - 1] == a + [x] + c;
      assert s[|a|] == x && s[|s| - 1] == b[|b| - 1];
      WithoutOne(key, a, x, c);
      assert a + b == a + c + [b[|b| - 1]];
    }
  }

  lemma {:induction false} KeptAll(s: seq<Issuer>, keys: set<Bytes>)
    requires PublicKeys(s) <= keys
    ensures Kept(s, keys) == s
    decreases |s|
  {
    if s != [] {
      assert s[|s| - 1].publicKey in PublicKeys(s);
      assert PublicKeys(s[..|s| - 1]) <= PublicKeys(s);
      KeptAll(s[..|s| - 1], keys);
    }
  }

  /** The store after a synchronisation: the issuers still paired with every endpoint they
      had, and for each new pairing an issuer with none. */
  ghost predicate Synchronised(before: seq<Issuer>, keys: set<Bytes>, now: seq<Issuer>) {
    AddedSoFar(before, keys, keys, now)
  }

  /** The same, when only the pairings in `done` have been added. */
  ghost predicate AddedSoFar(before: seq<Issuer>, keys: set<Bytes>, done: set<Bytes>, now: seq<Issuer>) {
    forall x :: x in now <==> (x in before && x.publicKey in keys)
                              || (x.endpoints == [] && x.publicKey in done && x.publicKey !in PublicKeys(before))
  }

  lemma SynchronisedKeys(before: seq<Issuer>, keys: set<Bytes>, now: seq<Issuer>)
    requires Synchronised(before, keys, now)
    ensures PublicKeys(now) == keys
  {
    forall p | p in keys ensures p in PublicKeys(now) {
      if p in PublicKeys(before) {
        var x :| x in before && x.publicKey == p;
        assert x in now;
      } else {
        assert Issuer(p, []) in now;
      }
    }
  }

  /** A well-formed store cannot hold two keys with one id. */
  lemma StoredKeysAreInjective(ids: Ids, s: seq<Issuer>)
    requires WellFormed(ids, s)
    ensures InjectiveOn(ids, PublicKeys(s))
  {
  }

  /** Adding one more new pairing, whose id no stored issuer has. */
  lemma AddStep(ids: Ids, before: seq<Issuer>, keys: set<Bytes>, done: set<Bytes>, now: seq<Issuer>, p: Bytes)
    requires InjectiveOn(ids, keys) && AddedSoFar(before, keys, done, now) && done <= keys
    requires p in keys && p !in done && p !in PublicKeys(before)
    ensures AddedSoFar(before, keys, done + {p}, Upsert(IssuerId(ids), now, Issuer(p, [])))
  {
    var x := Issuer(p, []);
    forall i | 0 <= i < |now| ensures IssuerId(ids)(now[i]) != IssuerId(ids)(x) {
      assert now[i] in now;
      if now[i] in before {
        assert now[i].publicKey in PublicKeys(before);
      }
    }
    UpsertAt(IssuerId(ids), now, x, |now|);
  }

  class EnrollmentService {
    const store: KeyStore

    constructor (store: KeyStore)
      ensures this.store == store
    {
      this.store := store;
    }

    /** The first loop: issuers that are no longer paired go. */
    method RemoveUnpaired(keys: set<Bytes>)
      requires store.Valid()
      modifies store`issuers, store`stored
      ensures store.Valid() && store.issuers == Kept(old(store.issuers), keys)
      ensures PublicKeys(old(store.issuers)) <= keys ==> store.stored == old(store.stored)
    {
      var all := store.issuers;
      HalfKeptEnds(all, keys);
      for n := 0 to |all|
        invariant store.Valid() && store.issuers == HalfKept(all, n, keys)
        invariant AllPaired(all, keys) ==> store.stored == old(store.stored)
      {
        RemovalFilters(store.ids, all, n, keys);
        if all[n].publicKey !in keys {
          KeyIsPaired(all, keys, n);
          store.RemoveIssuer(all[n]);
        }
      }
    }

    /** The second loop: pairings that have no issuer yet get one. */
    method AddMissing(keys: set<Bytes>, ghost before: seq<Issuer>, current: set<Bytes>)
      requires store.Valid() && current == PublicKeys(before)
      requires AddedSoFar(before, keys, {}, store.issuers)
      modifies store`issuers, store`stored
      ensures store.Valid()
      ensures InjectiveOn(store.ids, keys) ==> Synchronised(before, keys, store.issuers)
      ensures keys <= current ==> store.issuers == old(store.issuers) && store.stored == old(store.stored)
    {
      var todo := keys;
      while todo != {}
        invariant store.Valid() && todo <= keys
        invariant InjectiveOn(store.ids, keys) ==> AddedSoFar(before, keys, keys - todo, store.issuers)
        invariant keys <= current ==> store.issuers == old(store.issuers) && store.stored == old(store.stored)
        decreases todo
      {
        var p :| p in todo;
        assert (keys - todo) + {p} == keys - (todo - {p});
        if p !in current {
          if InjectiveOn(store.ids, keys) {
            AddStep(store.ids, before, keys, keys - todo, store.issuers, p);
          }
          store.UpsertIssuer(Issuer(p, []));
        }
        todo := todo - {p};
      }
      assert keys - {} == keys;
    }

    /** `update_hap_pairings`: the stored keys are exactly the paired ones if and only if no
        two paired keys share an issuer id, and then retained issuers keep every endpoint
        and new ones have none; a call with the keys already stored changes nothing. */
    method UpdateHapPairings(keys: set<Bytes>)
      requires store.Valid()
      modifies store`issuers, store`stored
      ensures store.Valid()
      ensures PublicKeys(store.issuers) == keys <==> InjectiveOn(store.ids, keys)
      ensures InjectiveOn(store.ids, keys) ==> Synchronised(old(store.issuers), keys, store.issuers)
      ensures PublicKeys(old(store.issuers)) == keys ==> store.issuers == old(store.issuers) && store.stored == old(store.stored)
    {
      ghost var before := store.issuers;
      var current := PublicKeys(store.issuers);
      RemoveUnpaired(keys);
      forall x ensures x in store.issuers <==> x in before && x.publicKey in keys {
        KeptMember(before, keys, x);
      }
      if current == keys {
        KeptAll(before, keys);
      }
      AddMissing(keys, before, current);
      StoredKeysAreInjective(store.ids, store.issuers);
      if InjectiveOn(store.ids, keys) {
        SynchronisedKeys(before, keys, store.issuers);
      }
    }

    // ----- Device credentials -----

    /** `add_device_credential`; `details` is the new random key and the rest of a new record. */
    method AddDeviceCredential(issuerId: Bytes, publicKey: Bytes, enrollment: Bytes, details: Bytes) returns (status: Status)
      requires store.Valid()
      modifies store`issuers, store`stored
      ensures store.Valid()
      ensures (status, store.issuers) == Added(store.ids, old(store.issuers), issuerId, publicKey, enrollment, details)
    {
      var known := FirstEndpoint(store.issuers, publicKey);
      var i := Position(IssuerId(store.ids), store.issuers, issuerId);
      LookupIsTable(store.ids, store.issuers, issuerId);
      if i == |store.issuers| {
        return DoesNotExist;
      }
      var endpoint := Endpoint(publicKey, Some(enrollment), details);
      if known.Some? {
        if known.value.hap.Some? {
          return Duplicate;
        }
        endpoint := known.value.(hap := Some(enrollment));
      }
      var found := store.UpsertEndpoint(issuerId, endpoint);
      status := Success;
    }

    /** `remove_device_credential` */
    method RemoveDeviceCredential(endpointId: Bytes) returns (status: Status)
      requires store.Valid()
      modifies store`issuers, store`stored
      ensures store.Valid()
      ensures (status, store.issuers) == Removed(store.ids, old(store.issuers), endpointId)
    {
      var removed := store.RemoveEndpoint(endpointId);
      status := if removed then Success else DoesNotExist;
    }
  }

  datatype Status = Success | Duplicate | DoesNotExist

  function FirstWithKey(es: seq<Endpoint>, publicKey: Bytes): Option<Endpoint>
    decreases |es|
  {
    if es == [] then None else if es[0].publicKey == publicKey then Some(es[0]) else FirstWithKey(es[1..], publicKey)
  }

  /** `get_endpoint_by_public_key`: the first in the order of issuers and of their lists. */
  function FirstEndpoint(s: seq<Issuer>, publicKey: Bytes): Option<Endpoint>
    decreases |s|
  {
    if s == [] then None
    else
      var here := FirstWithKey(s[0].endpoints, publicKey);
      if here.Some? then here else FirstEndpoint(s[1..], publicKey)
  }

  function Added(ids: Ids, s: seq<Issuer>, issuerId: Bytes, publicKey: Bytes, enrollment: Bytes, details: Bytes): (Status, seq<Issuer>) {
    var i := Position(IssuerId(ids), s, issuerId);
    if i == |s| then (DoesNotExist, s)
    else match FirstEndpoint(s, publicKey)
      case None => (Success, WithEndpoint(ids, s, i, Endpoint(publicKey, Some(enrollment), details)))
      case Some(e) =>
        if e.hap.Some? then (Duplicate, s) else (Success, WithEndpoint(ids, s, i, e.(hap := Some(enrollment))))
  }

  function Removed(ids: Ids, s: seq<Issuer>, endpointId: Bytes): (Status, seq<Issuer>) {
    (if Holds(ids, s, endpointId) then Success else DoesNotExist, Purged(ids, s, endpointId))
  }

  // ----- What adding and removing come to -----

  lemma {:induction false} FirstEndpointSplits(a: seq<Issuer>, b: seq<Issuer>, publicKey: Bytes)
    ensures FirstEndpoint(a + b, publicKey)
         == if FirstEndpoint(a, publicKey).Some? then FirstEndpoint(a, publicKey) else FirstEndpoint(b, publicKey)
    decreases |a|
  {
    if a == [] {
      assert a + b == b;
    } else {
      assert (a + b)[1..] == a[1..] + b;
      FirstEndpointSplits(a[1..], b, publicKey);
    }
  }

  lemma {:induction false} FirstEndpointHasKey(s: seq<Issuer>, publicKey: Bytes)
    ensures FirstEndpoint(s, publicKey).Some? ==> FirstEndpoint(s, publicKey).value.publicKey == publicKey
    decreases |s|
  {
    if s != [] {
      FirstWithKeyHasKey(s[0].endpoints, publicKey);
      FirstEndpointHasKey(s[1..], publicKey);
    }
  }

  lemma {:induction false} FirstWithKeyHasKey(es: seq<Endpoint>, publicKey: Bytes)
    ensures FirstWithKey(es, publicKey).Some? ==> FirstWithKey(es, publicKey).value.publicKey == publicKey
    decreases |es|
  {
    if es != [] {
      FirstWithKeyHasKey(es[1..], publicKey);
    }
  }

  /** The endpoint at `b` of the issuer at `a` has the key, and none listed before it. */
  ghost predicate FirstHeld(s: seq<Issuer>, publicKey: Bytes, a: nat, b: nat) {
    && a < |s| && b < |s[a].endpoints| && s[a].endpoints[b].publicKey == publicKey
    && (forall j | 0 <= j < b :: s[a].endpoints[j].publicKey != publicKey)
    && (forall i, j | 0 <= i < a && 0 <= j < |s[i].endpoints| :: s[i].endpoints[j].publicKey != publicKey)
  }

  /** No issuer holds the key. */
  ghost predicate NobodyHolds(s: seq<Issuer>, publicKey: Bytes) {
    forall i, j | 0 <= i < |s| && 0 <= j < |s[i].endpoints| :: s[i].endpoints[j].publicKey != publicKey
  }

  lemma {:induction false} FirstWithKeyIsFirst(es: seq<Endpoint>, publicKey: Bytes) returns (b: nat)
    ensures match FirstWithKey(es, publicKey)
            case None => forall j | 0 <= j < |es| :: es[j].publicKey != publicKey
            case Some(e) => b < |es| && es[b] == e && e.publicKey == publicKey && forall j | 0 <= j < b :: es[j].publicKey != publicKey
    decreases |es|
  {
    b := 0;
    if es != [] && es[0].publicKey != publicKey {
      b := FirstWithKeyIsFirst(es[1..], publicKey);
      b := b + 1;
    }
  }

  lemma {:induction false} FirstEndpointIsFirst(s: seq<Issuer>, publicKey: Bytes) returns (a: nat, b: nat)
    ensures match FirstEndpoint(s, publicKey)
            case None => NobodyHolds(s, publicKey)
            case Some(e) => FirstHeld(s, publicKey, a, b) && s[a].endpoints[b] == e
    decreases |s|
  {
    a, b := 0, 0;
    if s != [] {
      b := FirstWithKeyIsFirst(s[0].endpoints, publicKey);
      if FirstWithKey(s[0].endpoints, publicKey).None? {
        a, b := FirstEndpointIsFirst(s[1..], publicKey);
        a := a + 1;
      }
    }
  }

  lemma OnlyOneIsFirst(s: seq<Issuer>, publicKey: Bytes, a: nat, b: nat, c: nat, d: nat)
    requires FirstHeld(s, publicKey, a, b) && FirstHeld(s, publicKey, c, d)
    ensures a == c && b == d
  {
  }

  /** What is stored for a credential: the first endpoint with its key, with this enrolment and
      all else as it was, or a new one. */
  ghost predicate StoredFor(s: seq<Issuer>, publicKey: Bytes, enrollment: Bytes, details: Bytes, e: Endpoint) {
    && e.publicKey == publicKey && e.hap == Some(enrollment)
    && (forall a: nat, b: nat :: FirstHeld(s, publicKey, a, b) ==> e.details == s[a].endpoints[b].details)
    && (NobodyHolds(s, publicKey) ==> e.details == details)
  }

  /** The first endpoint with the key has a HomeKit enrolment already. */
  ghost predicate IsEnrolled(s: seq<Issuer>, publicKey: Bytes) {
    exists a: nat, b: nat :: FirstHeld(s, publicKey, a, b) && s[a].endpoints[b].hap.Some?
  }

  /** What adding a credential does.  It fails exactly if there is no such issuer, or else if the
      first endpoint with the key is enrolled, and then changes nothing.  Otherwise exactly one
      entry of one map is set, the requested issuer's under the endpoint's id: to the first
      endpoint that any issuer held with this key, its persistent key, counter and all else
      kept and only its enrolment set, or, if nobody held it, to the new record. */
  lemma AddSetsOneEntry(ids: Ids, s: seq<Issuer>, issuerId: Bytes, publicKey: Bytes, enrollment: Bytes, details: Bytes) returns (e: Endpoint)
    requires WellFormed(ids, s)
    ensures var (status, t) := Added(ids, s, issuerId, publicKey, enrollment, details); var table := Table(ids, s);
            && (status == DoesNotExist <==> issuerId !in table)
            && (status == Duplicate <==> issuerId in table && IsEnrolled(s, publicKey))
            && (status != Success ==> t == s)
            && (status == Success ==>
                  && WellFormed(ids, t) && StoredFor(s, publicKey, enrollment, details, e)
                  && Table(ids, t) == table[issuerId := Holder(table[issuerId].publicKey,
                                                               table[issuerId].endpoints[ids.endpoint(publicKey) := e])])
  {
    LookupIsTable(ids, s, issuerId);
    var i := Position(IssuerId(ids), s, issuerId);
    var known := FirstEndpoint(s, publicKey);
    var a, b := FirstEndpointIsFirst(s, publicKey);
    e := if known.Some? then known.value.(hap := Some(enrollment)) else Endpoint(publicKey, Some(enrollment), details);
    forall c: nat, d: nat | known.Some? && FirstHeld(s, publicKey, c, d) ensures s[c].endpoints[d] == known.value {
      OnlyOneIsFirst(s, publicKey, a, b, c, d);
    }
    if i < |s| {
      UpsertEndpointUpdates(ids, s, i, e);
    }
  }

  /** Within one issuer an endpoint that has been put in is the one found under its key. */
  lemma {:induction false} PutIsFound(ids: Ids, es: seq<Endpoint>, e: Endpoint)
    requires Distinct(EndpointId(ids), es)
    ensures FirstWithKey(Upsert(EndpointId(ids), es, e), e.publicKey) == Some(e)
    decreases |es|
  {
    if es != [] && EndpointId(ids)(es[0]) != EndpointId(ids)(e) {
      PutIsFound(ids, es[1..], e);
    }
  }

  /** Adding the same credential twice: the second call reports a duplicate exactly when no
      issuer listed before the requested one holds an endpoint with that key.  Otherwise
      that older copy, which the first call did not mark, is found again. */
  lemma AddTwice(ids: Ids, s: seq<Issuer>, issuerId: Bytes, publicKey: Bytes, enrollment: Bytes, details1: Bytes, details2: Bytes)
    requires WellFormed(ids, s) && Added(ids, s, issuerId, publicKey, enrollment, details1).0 == Success
    ensures var t := Added(ids, s, issuerId, publicKey, enrollment, details1).1;
            Added(ids, t, issuerId, publicKey, enrollment, details2).0 == Duplicate
            <==> FirstEndpoint(s[..Position(IssuerId(ids), s, issuerId)], publicKey).None?
  {
    var i := Position(IssuerId(ids), s, issuerId);
    var known := FirstEndpoint(s, publicKey);
    var e := if known.Some? then known.value.(hap := Some(enrollment)) else Endpoint(publicKey, Some(enrollment), details1);
    FirstEndpointHasKey(s, publicKey);
    var t := WithEndpoint(ids, s, i, e);
    PutIsFound(ids, s[i].endpoints, e);
    assert s == s[..i] + s[i..];
    assert t == s[..i] + t[i..] && t[i..][0] == t[i];
    FirstEndpointSplits(s[..i], s[i..], publicKey);
    FirstEndpointSplits(s[..i], t[i..], publicKey);
    SamePosition(ids, s, t, issuerId);
  }

  lemma {:induction false} SamePosition(ids: Ids, s: seq<Issuer>, t: seq<Issuer>, k: Bytes)
    requires |s| == |t| && forall i | 0 <= i < |s| :: s[i].publicKey == t[i].publicKey
    ensures Position(IssuerId(ids), s, k) == Position(IssuerId(ids), t, k)
    decreases |s|
  {
  }

  /** The case is real: an endpoint without enrolment under an earlier issuer can be added
      again and again. */
  lemma AddTwiceCanSucceedTwice(ids: Ids, p: Bytes, q: Bytes, k: Bytes, enrollment: Bytes, details: Bytes)
    requires ids.issuer(p) != ids.issuer(q)
    ensures var s := [Issuer(p, [Endpoint(k, None, [])]), Issuer(q, [])];
            var (first, t) := Added(ids, s, ids.issuer(q), k, enrollment, details);
            first == Success && Added(ids, t, ids.issuer(q), k, enrollment, details).0 == Success
  {
    var s := [Issuer(p, [Endpoint(k, None, [])]), Issuer(q, [])];
    assert s[1..] == [Issuer(q, [])];
    assert Position(IssuerId(ids), s, ids.issuer(q)) == 1;
    var t := Added(ids, s, ids.issuer(q), k, enrollment, details).1;
    assert t[0] == s[0] && t[1].publicKey == q && t[1..] == [t[1]];
    assert Position(IssuerId(ids), t, ids.issuer(q)) == 1;
  }

  /** A removed credential is gone, from every issuer that held it. */
  lemma RemoveTwice(ids: Ids, s: seq<Issuer>, endpointId: Bytes)
    requires WellFormed(ids, s)
    ensures var t := Removed(ids, s, endpointId).1;
            Removed(ids, t, endpointId) == (DoesNotExist, t)
  {
    PurgedIsWellFormed(ids, s, endpointId);
    PurgeNothing(ids, Purged(ids, s, endpointId), endpointId);
  }

  /** A new endpoint put into a list and filtered out again. */
  lemma PutThenFiltered(ids: Ids, es: seq<Endpoint>, e: Endpoint)
    requires !Has(EndpointId(ids), es, ids.endpoint(e.publicKey))
    ensures var u := Upsert(EndpointId(ids), es, e); var k := ids.endpoint(e.publicKey);
            Has(EndpointId(ids), u, k) && Without(EndpointId(ids), u, k) == es
  {
    UpsertAt(EndpointId(ids), es, e, |es|);
    WithoutNothing(EndpointId(ids), es, ids.endpoint(e.publicKey));
    HasAppend(EndpointId(ids), es, e, ids.endpoint(e.publicKey));
    assert (es + [e])[..|es|] == es;
  }

  lemma PutThenPurged(ids: Ids, s: seq<Issuer>, i: nat, e: Endpoint, j: nat)
    requires i < |s| && j < |s| && !Holds(ids, s, ids.endpoint(e.publicKey))
    ensures var t := WithEndpoint(ids, s, i, e); var k := ids.endpoint(e.publicKey);
            |Purged(ids, t, k)| == |s| && Purged(ids, t, k)[j] == s[j] && Holds(ids, t, k)
  {
    var k := ids.endpoint(e.publicKey);
    assert !Has(EndpointId(ids), s[i].endpoints, k) && !Has(EndpointId(ids), s[j].endpoints, k);
    PurgedAt(ids, WithEndpoint(ids, s, i, e), k, j);
    PutThenFiltered(ids, s[i].endpoints, e);
    WithoutNothing(EndpointId(ids), s[j].endpoints, k);
    assert Has(EndpointId(ids), WithEndpoint(ids, s, i, e)[i].endpoints, k);
  }

  /** Adding a credential nobody held and removing it again restores the lists. */
  lemma AddThenRemove(ids: Ids, s: seq<Issuer>, issuerId: Bytes, publicKey: Bytes, enrollment: Bytes, details: Bytes)
    requires WellFormed(ids, s) && !Holds(ids, s, ids.endpoint(publicKey)) && FirstEndpoint(s, publicKey).None?
    requires Position(IssuerId(ids), s, issuerId) < |s|
    ensures var t := Added(ids, s, issuerId, publicKey, enrollment, details).1;
            Removed(ids, t, ids.endpoint(publicKey)) == (Success, s)
  {
    var i := Position(IssuerId(ids), s, issuerId);
    var e := Endpoint(publicKey, Some(enrollment), details);
    var k := ids.endpoint(publicKey);
    var t := WithEndpoint(ids, s, i, e);
    assert Added(ids, s, issuerId, publicKey, enrollment, details) == (Success, t);
    PutThenPurged(ids, s, i, e, i);
    forall j | 0 <= j < |s| ensures Purged(ids, t, k)[j] == s[j] {
      PutThenPurged(ids, s, i, e, j);
    }
    assert Purged(ids, t, k) == s;
  }
}
