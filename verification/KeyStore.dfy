/** The Home Key store: lists of issuers and of their endpoints that behave as maps, written
    through to one stored document, and the HomeKit services that change them.

    Ids are functions of public keys; the functions are parameters. */
module KeyStoring {
  import opened Wrappers
  import opened KeyedLists

  datatype Ids = Ids(issuer: Bytes -> Bytes, endpoint: Bytes -> Bytes)

  datatype Endpoint = Endpoint(publicKey: Bytes, hap: Option<Bytes>, details: Bytes)

  datatype Issuer = Issuer(publicKey: Bytes, endpoints: seq<Endpoint>)

  function IssuerId(ids: Ids): Issuer -> Bytes {
    (x: Issuer) => ids.issuer(x.publicKey)
  }

  function EndpointId(ids: Ids): Endpoint -> Bytes {
    (x: Endpoint) => ids.endpoint(x.publicKey)
  }

  // ----- The maps the lists stand for -----

  datatype Holder = Holder(publicKey: Bytes, endpoints: map<Bytes, Endpoint>)

  function View(ids: Ids, x: Issuer): Holder {
    Holder(x.publicKey, Index(EndpointId(ids), x.endpoints))
  }

  function Views(ids: Ids, m: map<Bytes, Issuer>): map<Bytes, Holder> {
    map k | k in m :: View(ids, m[k])
  }

  function Table(ids: Ids, s: seq<Issuer>): map<Bytes, Holder> {
    Views(ids, Index(IssuerId(ids), s))
  }

  lemma ViewsUpdate(ids: Ids, m: map<Bytes, Issuer>, k: Bytes, x: Issuer)
    ensures Views(ids, m[k := x]) == Views(ids, m)[k := View(ids, x)]
    ensures Views(ids, m - {k}) == Views(ids, m) - {k}
  {
  }

  /** What is stored: dictionaries, so without any list order. */
  datatype Document = Document(readerKey: Bytes, readerIdentifier: Bytes, issuers: map<Bytes, Holder>)

  predicate WellFormed(ids: Ids, s: seq<Issuer>) {
    Distinct(IssuerId(ids), s) && forall i | 0 <= i < |s| :: Distinct(EndpointId(ids), s[i].endpoints)
  }

  lemma UpsertIssuerUpdates(ids: Ids, s: seq<Issuer>, x: Issuer)
    requires WellFormed(ids, s) && Distinct(EndpointId(ids), x.endpoints)
    ensures WellFormed(ids, Upsert(IssuerId(ids), s, x))
    ensures Table(ids, Upsert(IssuerId(ids), s, x)) == Table(ids, s)[ids.issuer(x.publicKey) := View(ids, x)]
  {
    UpsertUpdates(IssuerId(ids), s, x);
    ViewsUpdate(ids, Index(IssuerId(ids), s), ids.issuer(x.publicKey), x);
    UpsertedEndpoints(ids, s, x);
  }

  lemma UpsertedEndpoints(ids: Ids, s: seq<Issuer>, x: Issuer)
    requires WellFormed(ids, s) && Distinct(EndpointId(ids), x.endpoints)
    ensures var u := Upsert(IssuerId(ids), s, x); forall i | 0 <= i < |u| :: Distinct(EndpointId(ids), u[i].endpoints)
  {
  }

  function UpdateTable(ids: Ids, t: map<Bytes, Holder>, xs: seq<Issuer>): map<Bytes, Holder>
    decreases |xs|
  {
    if xs == [] then t
    else UpdateTable(ids, t, xs[..|xs| - 1])[ids.issuer(xs[|xs| - 1].publicKey) := View(ids, xs[|xs| - 1])]
  }

  lemma {:induction false} UpsertIssuersUpdates(ids: Ids, s: seq<Issuer>, xs: seq<Issuer>)
    requires WellFormed(ids, s) && forall i | 0 <= i < |xs| :: Distinct(EndpointId(ids), xs[i].endpoints)
    ensures WellFormed(ids, UpsertAll(IssuerId(ids), s, xs))
    ensures Table(ids, UpsertAll(IssuerId(ids), s, xs)) == UpdateTable(ids, Table(ids, s), xs)
    decreases |xs|
  {
    if xs != [] {
      var init := xs[..|xs| - 1];
      UpsertIssuersUpdates(ids, s, init);
      UpsertIssuerUpdates(ids, UpsertAll(IssuerId(ids), s, init), xs[|xs| - 1]);
    }
  }

  lemma RemoveIssuerRemoves(ids: Ids, s: seq<Issuer>, k: Bytes)
    requires WellFormed(ids, s)
    ensures WellFormed(ids, Without(IssuerId(ids), s, k))
    ensures Table(ids, Without(IssuerId(ids), s, k)) == Table(ids, s) - {k}
  {
    var w := Without(IssuerId(ids), s, k);
    WithoutRemoves(IssuerId(ids), s, k);
    ViewsUpdate(ids, Index(IssuerId(ids), s), k, Issuer(k, []));
    forall i | 0 <= i < |w| ensures Distinct(EndpointId(ids), w[i].endpoints) {
      WithoutMember(IssuerId(ids), s, k, w[i]);
      var j :| 0 <= j < |s| && s[j] == w[i];
    }
  }

  /** The issuer at `i` with one endpoint put in. */
  function WithEndpoint(ids: Ids, s: seq<Issuer>, i: nat, e: Endpoint): seq<Issuer>
    requires i < |s|
  {
    s[i := s[i].(endpoints := Upsert(EndpointId(ids), s[i].endpoints, e))]
  }

  lemma UpsertEndpointUpdates(ids: Ids, s: seq<Issuer>, i: nat, e: Endpoint)
    requires WellFormed(ids, s) && i < |s|
    ensures var u := WithEndpoint(ids, s, i, e); var k := ids.issuer(s[i].publicKey);
            && WellFormed(ids, u) && k in Table(ids, s)
            && Table(ids, u) == Table(ids, s)[k := Holder(s[i].publicKey,
                 Table(ids, s)[k].endpoints[ids.endpoint(e.publicKey) := e])]
  {
    UpsertUpdates(EndpointId(ids), s[i].endpoints, e);
    var x := s[i].(endpoints := Upsert(EndpointId(ids), s[i].endpoints, e));
    assert IssuerId(ids)(x) == IssuerId(ids)(s[i]);
    ReplaceUpdates(IssuerId(ids), s, x, i);
    ViewsUpdate(ids, Index(IssuerId(ids), s), ids.issuer(x.publicKey), x);
    IndexFinds(IssuerId(ids), s, i);
    var u := s[i := x];
    forall j, k | 0 <= j < k < |u| ensures IssuerId(ids)(u[j]) != IssuerId(ids)(u[k]) {
      assert IssuerId(ids)(s[j]) != IssuerId(ids)(s[k]);
    }
  }

  /** Every issuer without the endpoint. */
  function Purged(ids: Ids, s: seq<Issuer>, k: Bytes): seq<Issuer>
    decreases |s|
  {
    if s == [] then []
    else
      var last := s[|s| - 1];
      Purged(ids, s[..|s| - 1], k) + [last.(endpoints := Without(EndpointId(ids), last.endpoints, k))]
  }

  /** Some issuer holds the endpoint. */
  predicate Holds(ids: Ids, s: seq<Issuer>, k: Bytes) {
    exists i :: 0 <= i < |s| && Has(EndpointId(ids), s[i].endpoints, k)
  }

  lemma {:induction false} PurgedAt(ids: Ids, s: seq<Issuer>, k: Bytes, i: nat)
    requires i < |s|
    ensures |Purged(ids, s, k)| == |s|
    ensures Purged(ids, s, k)[i] == s[i].(endpoints := Without(EndpointId(ids), s[i].endpoints, k))
    decreases |s|
  {
    if |s| > 1 {
      PurgedAt(ids, s[..|s| - 1], k, if i < |s| - 1 then i else 0);
    }
  }

  function PurgedTable(t: map<Bytes, Holder>, k: Bytes): map<Bytes, Holder> {
    map id | id in t :: t[id].(endpoints := t[id].endpoints - {k})
  }

  lemma PurgedIsWellFormed(ids: Ids, s: seq<Issuer>, k: Bytes)
    requires WellFormed(ids, s)
    ensures WellFormed(ids, Purged(ids, s, k)) && |Purged(ids, s, k)| == |s|
    ensures !Holds(ids, Purged(ids, s, k), k)
  {
    var u := Purged(ids, s, k);
    if s != [] {
      PurgedAt(ids, s, k, 0);
    }
    forall i | 0 <= i < |u| ensures Distinct(EndpointId(ids), u[i].endpoints) && !Has(EndpointId(ids), u[i].endpoints, k) {
      PurgedAt(ids, s, k, i);
      WithoutRemoves(EndpointId(ids), s[i].endpoints, k);
      forall j | 0 <= j < |u[i].endpoints| ensures EndpointId(ids)(u[i].endpoints[j]) != k {
        WithoutMember(EndpointId(ids), s[i].endpoints, k, u[i].endpoints[j]);
      }
    }
    forall i, j | 0 <= i < j < |u| ensures IssuerId(ids)(u[i]) != IssuerId(ids)(u[j]) {
      PurgedAt(ids, s, k, i);
      PurgedAt(ids, s, k, j);
      assert IssuerId(ids)(s[i]) != IssuerId(ids)(s[j]);
    }
  }

  lemma PurgedTableUpdate(t: map<Bytes, Holder>, id: Bytes, h: Holder, k: Bytes)
    ensures PurgedTable(t[id := h], k) == PurgedTable(t, k)[id := h.(endpoints := h.endpoints - {k})]
  {
  }

  /** The last item has the last word. */
  lemma TableGrows(ids: Ids, s: seq<Issuer>, x: Issuer)
    ensures Table(ids, s + [x]) == Table(ids, s)[ids.issuer(x.publicKey) := View(ids, x)]
  {
  }

  lemma {:induction false} RemoveEndpointRemoves(ids: Ids, s: seq<Issuer>, k: Bytes)
    requires WellFormed(ids, s)
    ensures Table(ids, Purged(ids, s, k)) == PurgedTable(Table(ids, s), k)
    decreases |s|
  {
    if s != [] {
      var init, last := s[..|s| - 1], s[|s| - 1];
      RemoveEndpointRemoves(ids, init, k);
      WithoutRemoves(EndpointId(ids), last.endpoints, k);
      assert s == init + [last];
      TableGrows(ids, init, last);
      TableGrows(ids, Purged(ids, init, k), last.(endpoints := Without(EndpointId(ids), last.endpoints, k)));
      PurgedTableUpdate(Table(ids, init), ids.issuer(last.publicKey), View(ids, last), k);
    }
  }

  lemma {:induction false} PurgeNothing(ids: Ids, s: seq<Issuer>, k: Bytes)
    requires !Holds(ids, s, k)
    ensures Purged(ids, s, k) == s
    decreases |s|
  {
    if s != [] {
      var init, last := s[..|s| - 1], s[|s| - 1];
      assert !Has(EndpointId(ids), last.endpoints, k);
      forall i | 0 <= i < |init| ensures !Has(EndpointId(ids), init[i].endpoints, k) {
        assert init[i] == s[i];
      }
      PurgeNothing(ids, init, k);
      WithoutNothing(EndpointId(ids), last.endpoints, k);
    }
  }

  /** A lookup by id in the list is the lookup in the table. */
  lemma LookupIsTable(ids: Ids, s: seq<Issuer>, k: Bytes)
    requires WellFormed(ids, s)
    ensures var i := Position(IssuerId(ids), s, k);
            && (i < |s| <==> k in Table(ids, s))
            && (i < |s| ==> Table(ids, s)[k] == View(ids, s[i]))
  {
    IndexIs(IssuerId(ids), s);
    var i := Position(IssuerId(ids), s, k);
    if i < |s| {
      IndexFinds(IssuerId(ids), s, i);
    }
  }

  /** The first `n` issuers are purged, the others are as before. */
  ghost predicate HalfPurged(ids: Ids, before: seq<Issuer>, n: nat, k: Bytes, now: seq<Issuer>)
    requires n <= |before|
  {
    |Purged(ids, before[..n], k)| == n && now == Purged(ids, before[..n], k) + before[n..]
  }

  lemma PurgeStep(ids: Ids, before: seq<Issuer>, n: nat, k: Bytes, now: seq<Issuer>)
    requires n < |before| && HalfPurged(ids, before, n, k, now)
    ensures |now| == |before| && now[n] == before[n]
    ensures var retained := Without(EndpointId(ids), before[n].endpoints, k);
            && (|retained| != |before[n].endpoints| <==> Has(EndpointId(ids), before[n].endpoints, k))
            && HalfPurged(ids, before, n + 1, k,
                 if |retained| != |before[n].endpoints| then now[n := now[n].(endpoints := retained)] else now)
  {
    WithoutNothing(EndpointId(ids), before[n].endpoints, k);
    assert before[..n + 1][..n] == before[..n];
    var p := Purged(ids, before[..n], k);
    var x := before[n].(endpoints := Without(EndpointId(ids), before[n].endpoints, k));
    assert Purged(ids, before[..n + 1], k) == p + [x];
    assert now[n := x] == p + [x] + before[n + 1..];
    assert x == before[n] ==> now[n := x] == now;
  }

  lemma HoldsGrows(ids: Ids, s: seq<Issuer>, n: nat, k: Bytes)
    requires n < |s|
    ensures Holds(ids, s[..n + 1], k) <==> Holds(ids, s[..n], k) || Has(EndpointId(ids), s[n].endpoints, k)
  {
  }

  // ----- Any number of operations -----

  datatype Op =
    | PutIssuers(issuers: seq<Issuer>)
    | PutEndpoint(issuerId: Bytes, endpoint: Endpoint)
    | DropIssuer(issuerId: Bytes)
    | DropEndpoint(endpointId: Bytes)

  /** What the operations do to the list. */
  function OnList(ids: Ids, s: seq<Issuer>, op: Op): seq<Issuer> {
    match op
    case PutIssuers(xs) => UpsertAll(IssuerId(ids), s, xs)
    case PutEndpoint(k, e) =>
      var i := Position(IssuerId(ids), s, k);
      if i < |s| then WithEndpoint(ids, s, i, e) else s
    case DropIssuer(k) => Without(IssuerId(ids), s, k)
    case DropEndpoint(k) => Purged(ids, s, k)
  }

  /** What they mean for the maps. */
  function OnTable(ids: Ids, t: map<Bytes, Holder>, op: Op): map<Bytes, Holder> {
    match op
    case PutIssuers(xs) => UpdateTable(ids, t, xs)
    case PutEndpoint(k, e) =>
      if k in t then t[k := Holder(t[k].publicKey, t[k].endpoints[ids.endpoint(e.publicKey) := e])] else t
    case DropIssuer(k) => t - {k}
    case DropEndpoint(k) => PurgedTable(t, k)
  }

  /** An issuer handed in has distinct endpoint ids. */
  predicate Proper(ids: Ids, op: Op) {
    op.PutIssuers? ==> forall i | 0 <= i < |op.issuers| :: Distinct(EndpointId(ids), op.issuers[i].endpoints)
  }

  function RunList(ids: Ids, s: seq<Issuer>, ops: seq<Op>): seq<Issuer>
    decreases |ops|
  {
    if ops == [] then s else RunList(ids, OnList(ids, s, ops[0]), ops[1..])
  }

  function RunTable(ids: Ids, t: map<Bytes, Holder>, ops: seq<Op>): map<Bytes, Holder>
    decreases |ops|
  {
    if ops == [] then t else RunTable(ids, OnTable(ids, t, ops[0]), ops[1..])
  }

  lemma OneOperation(ids: Ids, s: seq<Issuer>, op: Op)
    requires WellFormed(ids, s) && Proper(ids, op)
    ensures WellFormed(ids, OnList(ids, s, op))
    ensures Table(ids, OnList(ids, s, op)) == OnTable(ids, Table(ids, s), op)
  {
    match op
    case PutIssuers(xs) => UpsertIssuersUpdates(ids, s, xs);
    case PutEndpoint(k, e) =>
      LookupIsTable(ids, s, k);
      var i := Position(IssuerId(ids), s, k);
      if i < |s| {
        UpsertEndpointUpdates(ids, s, i, e);
      }
    case DropIssuer(k) => RemoveIssuerRemoves(ids, s, k);
    case DropEndpoint(k) =>
      PurgedIsWellFormed(ids, s, k);
      RemoveEndpointRemoves(ids, s, k);
  }

  /** The lists refine the maps: after any sequence of operations the list stands for the map
      that the same sequence makes of the map it stood for, issuer ids are distinct, and so
      are the endpoint ids of every issuer. */
  lemma {:induction false} ListsRefineMaps(ids: Ids, s: seq<Issuer>, ops: seq<Op>)
    requires WellFormed(ids, s) && forall i | 0 <= i < |ops| :: Proper(ids, ops[i])
    ensures WellFormed(ids, RunList(ids, s, ops))
    ensures Table(ids, RunList(ids, s, ops)) == RunTable(ids, Table(ids, s), ops)
    decreases |ops|
  {
    if ops != [] {
      OneOperation(ids, s, ops[0]);
      ListsRefineMaps(ids, OnList(ids, s, ops[0]), ops[1..]);
    }
  }

  // ----- The store -----

  class KeyStore {
    const ids: Ids
    var readerKey: Bytes
    var readerIdentifier: Bytes
    var issuers: seq<Issuer>
    var stored: Document   // the decrypted document in the database

    /** Ids are distinct, and what is stored is what is held. */
    ghost predicate Valid()
      reads this
    {
      WellFormed(ids, issuers) && stored == Document(readerKey, readerIdentifier, Table(ids, issuers))
    }

    constructor (ids: Ids, readerKey: Bytes, readerIdentifier: Bytes)
      ensures Valid() && this.ids == ids && issuers == []
    {
      this.ids := ids;
      this.readerKey := readerKey;
      this.readerIdentifier := readerIdentifier;
      issuers := [];
      stored := Document(readerKey, readerIdentifier, map[]);
    }

    /** `_persist_locked`: the whole document is rewritten. */
    method Persist()
      modifies this`stored
      ensures stored == Document(readerKey, readerIdentifier, Table(ids, issuers))
    {
      stored := Document(readerKey, readerIdentifier, Table(ids, issuers));
    }

    /** `for ... else`: the first issuer with the id is replaced, or the new one appended. */
    method PutIssuer(x: Issuer)
      modifies this`issuers
      ensures issuers == Upsert(IssuerId(ids), old(issuers), x)
    {
      var index := 0;
      while index < |issuers|
        invariant index <= |issuers| && issuers == old(issuers)
        invariant forall j | 0 <= j < index :: IssuerId(ids)(issuers[j]) != IssuerId(ids)(x)
      {
        if ids.issuer(issuers[index].publicKey) == ids.issuer(x.publicKey) {
          UpsertAt(IssuerId(ids), issuers, x, index);
          issuers := issuers[index := x];
          return;
        }
        index := index + 1;
      }
      UpsertAt(IssuerId(ids), issuers, x, index);
      issuers := issuers + [x];
    }

    method UpsertIssuer(x: Issuer)
      requires Valid() && Distinct(EndpointId(ids), x.endpoints)
      modifies this`issuers, this`stored
      ensures Valid() && issuers == Upsert(IssuerId(ids), old(issuers), x)
      ensures stored == old(stored).(issuers := old(stored).issuers[ids.issuer(x.publicKey) := View(ids, x)])
    {
      UpsertIssuerUpdates(ids, issuers, x);
      PutIssuer(x);
      Persist();
    }

    method UpsertIssuers(xs: seq<Issuer>)
      requires Valid() && forall i | 0 <= i < |xs| :: Distinct(EndpointId(ids), xs[i].endpoints)
      modifies this`issuers, this`stored
      ensures Valid() && stored == old(stored).(issuers := UpdateTable(ids, old(stored).issuers, xs))
    {
      for n := 0 to |xs|
        invariant issuers == UpsertAll(IssuerId(ids), old(issuers), xs[..n])
      {
        assert xs[..n + 1][..n] == xs[..n];
        PutIssuer(xs[n]);
      }
      assert xs[..|xs|] == xs;
      UpsertIssuersUpdates(ids, old(issuers), xs);
      Persist();
    }

    method RemoveIssuer(x: Issuer)
      requires Valid()
      modifies this`issuers, this`stored
      ensures Valid() && issuers == Without(IssuerId(ids), old(issuers), ids.issuer(x.publicKey))
      ensures stored == old(stored).(issuers := old(stored).issuers - {ids.issuer(x.publicKey)})
    {
      RemoveIssuerRemoves(ids, issuers, ids.issuer(x.publicKey));
      issuers := Without(IssuerId(ids), issuers, ids.issuer(x.publicKey));
      Persist();
    }

    /** False is the KeyError for an issuer that does not exist. */
    method UpsertEndpoint(issuerId: Bytes, e: Endpoint) returns (found: bool)
      requires Valid()
      modifies this`issuers, this`stored
      ensures Valid() && (found <==> issuerId in old(stored).issuers)
      ensures !found ==> issuers == old(issuers) && stored == old(stored)
      ensures found ==>
                var i := Position(IssuerId(ids), old(issuers), issuerId);
                && i < |old(issuers)| && issuers == WithEndpoint(ids, old(issuers), i, e)
                && stored == old(stored).(issuers := old(stored).issuers[issuerId :=
                     Holder(old(stored).issuers[issuerId].publicKey,
                            old(stored).issuers[issuerId].endpoints[ids.endpoint(e.publicKey) := e])])
    {
      LookupIsTable(ids, issuers, issuerId);
      var i := Position(IssuerId(ids), issuers, issuerId);
      if i == |issuers| {
        return false;
      }
      UpsertEndpointUpdates(ids, issuers, i, e);
      issuers := WithEndpoint(ids, issuers, i, e);
      Persist();
      found := true;
    }

    /** Every issuer loses the endpoint. */
    method PurgeEndpoint(endpointId: Bytes) returns (removed: bool)
      modifies this`issuers
      ensures issuers == Purged(ids, old(issuers), endpointId)
      ensures removed <==> Holds(ids, old(issuers), endpointId)
    {
      removed := false;
      ghost var before := issuers;
      for n := 0 to |issuers|
        invariant |issuers| == |before|
        invariant HalfPurged(ids, before, n, endpointId, issuers)
        invariant removed <==> Holds(ids, before[..n], endpointId)
      {
        PurgeStep(ids, before, n, endpointId, issuers);
        HoldsGrows(ids, before, n, endpointId);
        var retained := Without(EndpointId(ids), issuers[n].endpoints, endpointId);
        if |retained| != |issuers[n].endpoints| {
          issuers := issuers[n := issuers[n].(endpoints := retained)];
          removed := true;
        }
      }
      assert before[..|before|] == before;
    }

    /** The document is rewritten only if an issuer had the endpoint. */
    method RemoveEndpoint(endpointId: Bytes) returns (removed: bool)
      requires Valid()
      modifies this`issuers, this`stored
      ensures Valid() && issuers == Purged(ids, old(issuers), endpointId)
      ensures removed <==> Holds(ids, old(issuers), endpointId)
      ensures stored == old(stored).(issuers := PurgedTable(old(stored).issuers, endpointId))
      ensures !removed ==> issuers == old(issuers) && stored == old(stored)
    {
      PurgedIsWellFormed(ids, issuers, endpointId);
      RemoveEndpointRemoves(ids, issuers, endpointId);
      ghost var before := issuers;
      removed := PurgeEndpoint(endpointId);
      if removed {
        Persist();
      } else {
        PurgeNothing(ids, before, endpointId);
      }
    }

    method SetReaderPrivateKey(value: Bytes) returns (ok: bool)
      requires Valid()
      modifies this`readerKey, this`stored
      ensures Valid() && (ok <==> |value| == 32)
      ensures stored == if ok then old(stored).(readerKey := value) else old(stored)
    {
      ok := |value| == 32;
      if ok {
        readerKey := value;
        Persist();
      }
    }

    // ----- Restart -----

    /** `_load_document` after a restart: the list is some enumeration of the dictionaries,
        so its order may differ, and nothing else does. */
    method Reload()
      requires Valid()
      modifies this`readerKey, this`readerIdentifier, this`issuers
      ensures Valid() && stored == old(stored) && readerKey == old(readerKey) && readerIdentifier == old(readerIdentifier)
      ensures Table(ids, issuers) == old(Table(ids, issuers))
    {
      TableHolders(ids, issuers);
      readerKey := stored.readerKey;
      readerIdentifier := stored.readerIdentifier;
      issuers := LoadIssuers(ids, stored.issuers);
    }
  }

  /** Every entry lies under its own id. */
  ghost predicate WellKeyed(ids: Ids, t: map<Bytes, Holder>) {
    forall id :: id in t ==> ids.issuer(t[id].publicKey) == id && WellKeyedEndpoints(ids, t[id].endpoints)
  }

  ghost predicate WellKeyedEndpoints(ids: Ids, m: map<Bytes, Endpoint>) {
    forall k :: k in m ==> EndpointId(ids)(m[k]) == k
  }

  method LoadIssuers(ids: Ids, t: map<Bytes, Holder>) returns (s: seq<Issuer>)
    requires WellKeyed(ids, t)
    ensures WellFormed(ids, s) && Table(ids, s) == t
  {
    s := [];
    var todo := t.Keys;
    while todo != {}
      invariant todo <= t.Keys
      invariant LoadedSoFar(ids, t, todo, s)
      decreases todo
    {
      var id :| id in todo;
      var x := LoadIssuer(ids, t[id]);
      LoadStep(ids, t, todo, id, s, x);
      s := s + [x];
      todo := todo - {id};
    }
    assert t - {} == t;
  }

  /** The list stands for the entries that are not still to do. */
  ghost predicate LoadedSoFar(ids: Ids, t: map<Bytes, Holder>, todo: set<Bytes>, s: seq<Issuer>) {
    WellFormed(ids, s) && Table(ids, s) == t - todo
  }

  lemma LoadStep(ids: Ids, t: map<Bytes, Holder>, todo: set<Bytes>, id: Bytes, s: seq<Issuer>, x: Issuer)
    requires LoadedSoFar(ids, t, todo, s) && id in todo && id in t
    requires View(ids, x) == t[id] && ids.issuer(x.publicKey) == id && Distinct(EndpointId(ids), x.endpoints)
    ensures LoadedSoFar(ids, t, todo - {id}, s + [x])
  {
    AppendLoaded(ids, s, x);
    assert (t - todo)[id := t[id]] == t - (todo - {id});
  }

  method LoadIssuer(ids: Ids, h: Holder) returns (x: Issuer)
    requires WellKeyedEndpoints(ids, h.endpoints)
    ensures View(ids, x) == h && Distinct(EndpointId(ids), x.endpoints)
  {
    var endpoints := Enumerate(EndpointId(ids), h.endpoints);
    x := Issuer(h.publicKey, endpoints);
  }

  lemma AppendLoaded(ids: Ids, s: seq<Issuer>, x: Issuer)
    requires WellFormed(ids, s) && Distinct(EndpointId(ids), x.endpoints) && ids.issuer(x.publicKey) !in Table(ids, s)
    ensures WellFormed(ids, s + [x])
    ensures Table(ids, s + [x]) == Table(ids, s)[ids.issuer(x.publicKey) := View(ids, x)]
  {
    IndexIs(IssuerId(ids), s);
    AppendFresh(IssuerId(ids), s, x);
    TableGrows(ids, s, x);
  }

  lemma TableHolders(ids: Ids, s: seq<Issuer>)
    ensures WellKeyed(ids, Table(ids, s))
  {
    IndexIs(IssuerId(ids), s);
    forall id | id in Table(ids, s)
      ensures ids.issuer(Table(ids, s)[id].publicKey) == id && WellKeyedEndpoints(ids, Table(ids, s)[id].endpoints)
    {
      var x := Index(IssuerId(ids), s)[id];
      assert IssuerId(ids)(x) == id;
      IndexIs(EndpointId(ids), x.endpoints);
    }
  }
}
