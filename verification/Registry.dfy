/** The reader registry: how it is loaded at start-up, and how an unknown reader that proves
    the fleet secret is added to it while the controller runs.

    The keyed hash (HMAC-SHA256, RFC 2104) is a parameter; nothing is assumed of it. */
module Registry {
  import opened Wrappers

  type Mac = (string, string) -> string

  // ----- Reader ids -----

  function LowerChar(c: char): char {
    if 'A' <= c <= 'Z' then (c as int + 32) as char else c
  }

  /** Lower case, without colons and hyphens. */
  function Bare(s: string): string
    decreases |s|
  {
    if s == "" then ""
    else
      var c := LowerChar(s[0]);
      (if c == ':' || c == '-' then "" else [c]) + Bare(s[1..])
  }

  predicate IsHex(c: char) {
    '0' <= c <= '9' || 'a' <= c <= 'f' || 'A' <= c <= 'F'
  }

  predicate IsSpace(c: char) {
    9 <= c as int <= 13 || c == ' '
  }

  /** `bytes.fromhex` accepts pairs of digits, with white space allowed between pairs. */
  predicate FromHexAccepts(s: string)
    decreases |s|
  {
    if s == "" then true
    else if IsSpace(s[0]) then FromHexAccepts(s[1..])
    else |s| >= 2 && IsHex(s[0]) && IsHex(s[1]) && FromHexAccepts(s[2..])
  }

  /** `normalize_reader_id`; None is its ValueError. */
  function Normalize(s: string): Option<string> {
    var n := Bare(s);
    if |n| == 12 && FromHexAccepts(n) then Some(n) else None
  }

  /** Nothing left to lower or drop. */
  predicate IsBare(s: string) {
    forall i | 0 <= i < |s| :: LowerChar(s[i]) == s[i] && s[i] != ':' && s[i] != '-'
  }

  lemma {:induction false} BareIsBare(s: string)
    ensures IsBare(Bare(s))
    decreases |s|
  {
    if s != "" {
      BareIsBare(s[1..]);
    }
  }

  lemma {:induction false} BareKeepsBare(s: string)
    requires IsBare(s)
    ensures Bare(s) == s
    decreases |s|
  {
    if s != "" {
      BareKeepsBare(s[1..]);
      assert [s[0]] + s[1..] == s;
    }
  }

  /** A normalized id is its own normal form. */
  lemma NormalizeIdempotent(s: string)
    ensures Normalize(s).Some? ==> Normalize(Normalize(s).value) == Normalize(s)
  {
    BareIsBare(s);
    BareKeepsBare(Bare(s));
  }

  /** The same letter, in either case, as the lower-case one `d`. */
  predicate SameLetter(c: char, d: char) {
    if 'A' <= c <= 'Z' then c as int - 'A' as int == d as int - 'a' as int else c == d
  }

  /** `s` spells out `n` in letters of either case, with colons and hyphens anywhere. */
  ghost predicate Spells(s: string, n: string)
    decreases |s|
  {
    if s == "" then n == ""
    else if s[0] == ':' || s[0] == '-' then Spells(s[1..], n)
    else n != "" && SameLetter(s[0], n[0]) && Spells(s[1..], n[1..])
  }

  /** Six bytes in lower-case hexadecimal. */
  predicate IsMacAddress(n: string) {
    |n| == 12 && forall i | 0 <= i < 12 :: IsDigit(n[i])
  }

  predicate HasWhiteSpace(s: string) {
    exists i :: 0 <= i < |s| && (s[i] == ' ' || 9 <= s[i] as int <= 13)
  }

  lemma {:induction false} BareIsSpelt(s: string, n: string)
    ensures Spells(s, n) <==> n == Bare(s)
    decreases |s|
  {
    if s != "" {
      if s[0] == ':' || s[0] == '-' {
        BareIsSpelt(s[1..], n);
      } else if n != "" {
        BareIsSpelt(s[1..], n[1..]);
        assert n == [n[0]] + n[1..];
      }
    }
  }

  lemma {:induction false} BareKeepsWhiteSpace(s: string)
    ensures HasWhiteSpace(Bare(s)) ==> HasWhiteSpace(s)
    decreases |s|
  {
    if s != "" {
      BareKeepsWhiteSpace(s[1..]);
      if i :| 0 <= i < |s[1..]| && (s[1..][i] == ' ' || 9 <= s[1..][i] as int <= 13) {
        assert s[i + 1] == s[1..][i];
      }
      if HasWhiteSpace(Bare(s)) && !HasWhiteSpace(Bare(s[1..])) {
        assert LowerChar(s[0]) == s[0];
      }
    }
  }

  predicate IsDigit(c: char) {
    '0' <= c <= '9' || 'a' <= c <= 'f'
  }

  /** Digits in pairs. */
  predicate Pairs(n: string)
    decreases |n|
  {
    n == "" || (|n| >= 2 && IsDigit(n[0]) && IsDigit(n[1]) && Pairs(n[2..]))
  }

  lemma {:induction false} PairsAreDigits(n: string)
    ensures Pairs(n) <==> |n| % 2 == 0 && forall i | 0 <= i < |n| :: IsDigit(n[i])
    decreases |n|
  {
    if |n| >= 2 {
      PairsAreDigits(n[2..]);
      assert forall i | 2 <= i < |n| :: n[i] == n[2..][i - 2];
      assert forall i | 0 <= i < |n[2..]| :: n[2..][i] == n[i + 2];
    }
  }

  lemma {:induction false} HexIsPairs(n: string)
    requires !HasWhiteSpace(n) && IsBare(n)
    ensures FromHexAccepts(n) <==> Pairs(n)
    decreases |n|
  {
    if |n| >= 2 {
      assert !HasWhiteSpace(n[2..]) by {
        assert forall i | 0 <= i < |n[2..]| :: n[2..][i] == n[i + 2];
      }
      HexIsPairs(n[2..]);
    }
  }

  /** A reader id is accepted, if it holds no white space, exactly if it spells out six bytes,
      in digits of either case, with colons and hyphens anywhere; and all its spellings are
      one id. */
  lemma NormalizesSpellings(s: string, n: string)
    requires !HasWhiteSpace(s)
    ensures Normalize(s) == Some(n) <==> IsMacAddress(n) && Spells(s, n)
  {
    BareIsSpelt(s, n);
    BareIsBare(s);
    BareKeepsWhiteSpace(s);
    HexIsPairs(Bare(s));
    PairsAreDigits(Bare(s));
  }

  /** With white space in it an id may have fewer bytes: twelve characters are asked for, of
      which white space between the bytes is skipped. */
  lemma FiveBytesAreAccepted(bytes: string, space: string)
    requires |bytes| == 10 && Pairs(bytes) && |space| == 2
    requires forall i | 0 <= i < 2 :: space[i] in {' ', '\t', '\n', 11 as char, 12 as char, '\r'}
    ensures Normalize(bytes + space) == Some(bytes + space) && !IsMacAddress(bytes + space)
  {
    var s := bytes + space;
    PairsAreDigits(bytes);
    assert |space[1..]| == 1 && space[1..][1..] == "";
    HexBehindPairs(bytes, space);
    assert IsBare(s);
    BareKeepsBare(s);
    assert s[11] == space[1];
  }

  lemma {:induction false} HexBehindPairs(n: string, s: string)
    requires Pairs(n) && FromHexAccepts(s)
    ensures FromHexAccepts(n + s)
    decreases |n|
  {
    if n == "" {
      assert n + s == s;
    } else {
      HexBehindPairs(n[2..], s);
      assert (n + s)[2..] == n[2..] + s;
    }
  }

  // ----- The registry document -----

  /** One reader's settings; tokens as after `strip()`, empty when absent. */
  datatype Entry = Entry(doorId: Option<string>, token: string, enabled: bool)

  /** `readers` is a dictionary in its own order. */
  datatype Document = Document(fleetToken: string, autoEnroll: bool, maxReaders: int, readers: seq<(string, Entry)>)

  datatype Record = Record(readerId: string, doorId: string, token: string, enabled: bool, legacyToken: Option<string>)

  datatype LoadError = BadReaderId | NoToken | NoDoor

  function AcceptsToken(r: Record, supplied: string): bool {
    supplied == r.token || r.legacyToken == Some(supplied)
  }

  /** One turn of the loading loop. */
  function RecordOf(mac: Mac, fleetToken: string, readerId: string, e: Entry): Result<Record, LoadError> {
    if fleetToken == "" && e.token == "" then Err(NoToken)
    else if e.doorId.None? then Err(NoDoor)
    else
      var token := if fleetToken != "" then mac(fleetToken, readerId) else e.token;
      var legacy := if fleetToken != "" && e.token != "" && e.token != token then Some(e.token) else None;
      Ok(Record(readerId, e.doorId.value, token, e.enabled, legacy))
  }

  function Load(mac: Mac, fleetToken: string, readers: seq<(string, Entry)>): Result<map<string, Record>, LoadError>
    decreases |readers|
  {
    if readers == [] then Ok(map[])
    else
      var (key, entry) := readers[|readers| - 1];
      match Load(mac, fleetToken, readers[..|readers| - 1])
      case Err(e) => Err(e)
      case Ok(records) =>
        match Normalize(key)
        case None => Err(BadReaderId)
        case Some(id) =>
          match RecordOf(mac, fleetToken, id, entry)
          case Err(e) => Err(e)
          case Ok(record) => Ok(records[id := record])
  }

  /** `load_registry` */
  method LoadRegistry(mac: Mac, document: Document) returns (r: Result<map<string, Record>, LoadError>)
    ensures r == Load(mac, document.fleetToken, document.readers)
  {
    var records: map<string, Record> := map[];
    ghost var readers := document.readers;
    for i := 0 to |document.readers|
      invariant Load(mac, document.fleetToken, readers[..i]) == Ok(records)
    {
      assert readers[..i + 1][..i] == readers[..i];
      var (key, entry) := document.readers[i];
      var id := Normalize(key);
      if id.None? {
        LoadFailsEarly(mac, document.fleetToken, readers, i + 1);
        return Err(BadReaderId);
      }
      var record := RecordOf(mac, document.fleetToken, id.value, entry);
      if record.Err? {
        LoadFailsEarly(mac, document.fleetToken, readers, i + 1);
        return Err(record.error);
      }
      records := records[id.value := record.value];
    }
    assert readers[..|readers|] == readers;
    r := Ok(records);
  }

  lemma {:induction false} LoadFailsEarly(mac: Mac, fleetToken: string, readers: seq<(string, Entry)>, n: nat)
    requires n <= |readers| && Load(mac, fleetToken, readers[..n]).Err?
    ensures Load(mac, fleetToken, readers) == Load(mac, fleetToken, readers[..n])
    decreases |readers|
  {
    if n == |readers| {
      assert readers[..n] == readers;
    } else {
      var init := readers[..|readers| - 1];
      assert init[..n] == readers[..n];
      LoadFailsEarly(mac, fleetToken, init, n);
    }
  }

  // ----- Enrolment -----

  /** The dictionary assignment `readers[key] = entry`. */
  function Assign(readers: seq<(string, Entry)>, key: string, entry: Entry): seq<(string, Entry)>
    decreases |readers|
  {
    if readers == [] then [(key, entry)]
    else if readers[0].0 == key then [(key, entry)] + readers[1..]
    else [readers[0]] + Assign(readers[1..], key, entry)
  }

  predicate MayEnroll(mac: Mac, d: Document, readerId: string, supplied: string) {
    d.autoEnroll && d.fleetToken != "" && supplied == mac(d.fleetToken, readerId) && |d.readers| < d.maxReaders
  }

  class RegistryFile {
    var document: Document

    constructor (document: Document)
      ensures this.document == document
    {
      this.document := document;
    }

    /** `enroll_fleet_reader` */
    method EnrollFleetReader(mac: Mac, doorId: string, readerId: string, supplied: string) returns (r: Option<Record>)
      modifies this
      ensures r.Some? <==> MayEnroll(mac, old(document), readerId, supplied)
      ensures (r, document) == Enroll(mac, old(document), doorId, readerId, supplied)
    {
      if !document.autoEnroll {
        return None;
      }
      if document.fleetToken == "" {
        return None;
      }
      var expected := mac(document.fleetToken, readerId);
      if supplied != expected {
        return None;
      }
      if |document.readers| >= document.maxReaders {
        return None;
      }
      document := document.(readers := Assign(document.readers, readerId, Entry(Some(doorId), "", true)));
      r := Some(Record(readerId, doorId, expected, true, None));
    }
  }

  function Enroll(mac: Mac, d: Document, doorId: string, readerId: string, supplied: string): (Option<Record>, Document) {
    if MayEnroll(mac, d, readerId, supplied)
    then (Some(Record(readerId, doorId, supplied, true, None)),
          d.(readers := Assign(d.readers, readerId, Entry(Some(doorId), "", true))))
    else (None, d)
  }

  lemma {:induction false} AssignAppends(readers: seq<(string, Entry)>, key: string, entry: Entry)
    requires forall i | 0 <= i < |readers| :: readers[i].0 != key
    ensures Assign(readers, key, entry) == readers + [(key, entry)]
    decreases |readers|
  {
    if readers != [] {
      AssignAppends(readers[1..], key, entry);
      assert readers == [readers[0]] + readers[1..];
    }
  }

  lemma {:induction false} AssignCounts(readers: seq<(string, Entry)>, key: string, entry: Entry)
    ensures |readers| <= |Assign(readers, key, entry)| <= |readers| + 1
    ensures |Assign(readers, key, entry)| == |readers| <==> exists i :: 0 <= i < |readers| && readers[i].0 == key
    decreases |readers|
  {
    if readers != [] {
      if readers[0].0 != key {
        AssignCounts(readers[1..], key, entry);
        if i :| 0 <= i < |readers[1..]| && readers[1..][i].0 == key {
          assert readers[i + 1].0 == key;
        }
        if j :| 0 <= j < |readers| && readers[j].0 == key {
          assert readers[1..][j - 1].0 == key;
        }
      }
    }
  }

  lemma {:induction false} KeyIsRegistered(mac: Mac, fleetToken: string, readers: seq<(string, Entry)>, i: nat)
    requires Load(mac, fleetToken, readers).Ok? && i < |readers|
    ensures Normalize(readers[i].0).Some? && Normalize(readers[i].0).value in Load(mac, fleetToken, readers).value
    decreases |readers|
  {
    if i < |readers| - 1 {
      KeyIsRegistered(mac, fleetToken, readers[..|readers| - 1], i);
    }
  }

  lemma {:induction false} RegisteredIsKey(mac: Mac, fleetToken: string, readers: seq<(string, Entry)>, id: string) returns (i: nat)
    requires Load(mac, fleetToken, readers).Ok? && id in Load(mac, fleetToken, readers).value
    ensures Load(mac, fleetToken, readers).value[id].readerId == id
    ensures i < |readers| && Normalize(readers[i].0) == Some(id)
    decreases |readers|
  {
    i := |readers| - 1;
    if Normalize(readers[i].0) != Some(id) {
      i := RegisteredIsKey(mac, fleetToken, readers[..|readers| - 1], id);
    }
  }

  /** Every key of a document that loads is registered under its normal form, and nothing
      else is. */
  lemma KeysAreRegistered(mac: Mac, fleetToken: string, readers: seq<(string, Entry)>)
    requires Load(mac, fleetToken, readers).Ok?
    ensures forall i | 0 <= i < |readers| ::
              Normalize(readers[i].0).Some? && Normalize(readers[i].0).value in Load(mac, fleetToken, readers).value
    ensures forall id :: id in Load(mac, fleetToken, readers).value ==>
              Load(mac, fleetToken, readers).value[id].readerId == id
              && exists i :: 0 <= i < |readers| && Normalize(readers[i].0) == Some(id)
  {
    forall i | 0 <= i < |readers|
      ensures Normalize(readers[i].0).Some? && Normalize(readers[i].0).value in Load(mac, fleetToken, readers).value
    {
      KeyIsRegistered(mac, fleetToken, readers, i);
    }
    forall id | id in Load(mac, fleetToken, readers).value
      ensures Load(mac, fleetToken, readers).value[id].readerId == id
              && exists i :: 0 <= i < |readers| && Normalize(readers[i].0) == Some(id)
    {
      var i := RegisteredIsKey(mac, fleetToken, readers, id);
    }
  }

  /** The last key with this normal form. */
  ghost predicate LastWith(readers: seq<(string, Entry)>, id: string, i: nat) {
    && i < |readers| && Normalize(readers[i].0) == Some(id)
    && forall j | i < j < |readers| :: Normalize(readers[j].0) != Some(id)
  }

  /** The document loads if and only if every key is a reader id and every entry names a door
      and has a token, its own or the fleet's. */
  predicate Loadable(fleetToken: string, key: string, e: Entry) {
    Normalize(key).Some? && (fleetToken != "" || e.token != "") && e.doorId.Some?
  }

  /** The record is what this entry says about this reader: its door and whether it is switched
      on; with a fleet token its token is the keyed hash of its id, and the entry's own token
      is kept as a second one if there is one and it is another; without, the entry's own token
      is its only one. */
  ghost predicate Says(mac: Mac, fleetToken: string, id: string, e: Entry, r: Record) {
    && r.readerId == id && Some(r.doorId) == e.doorId && r.enabled == e.enabled
    && (fleetToken != "" ==> r.token == mac(fleetToken, id))
    && (fleetToken != "" && e.token != "" && e.token != mac(fleetToken, id) ==> r.legacyToken == Some(e.token))
    && (fleetToken == "" ==> r.token == e.token)
    && (fleetToken == "" || e.token == "" || e.token == mac(fleetToken, id) ==> r.legacyToken == None)
  }

  lemma RecordSays(mac: Mac, fleetToken: string, id: string, e: Entry)
    ensures RecordOf(mac, fleetToken, id, e).Ok? <==> (fleetToken != "" || e.token != "") && e.doorId.Some?
    ensures RecordOf(mac, fleetToken, id, e).Ok? ==> Says(mac, fleetToken, id, e, RecordOf(mac, fleetToken, id, e).value)
    ensures RecordOf(mac, fleetToken, id, e).Err? ==>
              RecordOf(mac, fleetToken, id, e).error == if fleetToken == "" && e.token == "" then NoToken else NoDoor
  {
  }

  /** The entry at `i` is the first that is not right, and this is what is wrong with it. */
  ghost predicate FailsAt(fleetToken: string, readers: seq<(string, Entry)>, i: int, error: LoadError)
    requires 0 <= i < |readers|
  {
    && !Loadable(fleetToken, readers[i].0, readers[i].1)
    && (forall j | 0 <= j < i :: Loadable(fleetToken, readers[j].0, readers[j].1))
    && (error == BadReaderId <==> Normalize(readers[i].0).None?)
    && (error == NoToken <==> Normalize(readers[i].0).Some? && fleetToken == "" && readers[i].1.token == "")
  }

  /** When loading fails, and with what: the first entry that is not right decides, by its key
      before its token and its token before its door. */
  lemma {:induction false} LoadsExactly(mac: Mac, fleetToken: string, readers: seq<(string, Entry)>) returns (i: nat)
    ensures match Load(mac, fleetToken, readers)
            case Ok(_) => forall j | 0 <= j < |readers| :: Loadable(fleetToken, readers[j].0, readers[j].1)
            case Err(error) => i < |readers| && FailsAt(fleetToken, readers, i, error)
    decreases |readers|
  {
    i := 0;
    if readers != [] {
      var n := |readers| - 1;
      i := LoadsExactly(mac, fleetToken, readers[..n]);
      if Load(mac, fleetToken, readers[..n]).Ok? {
        assert forall j | 0 <= j < n :: readers[..n][j] == readers[j];
        OneMoreLoads(mac, fleetToken, readers, n);
        i := n;
      } else {
        FailsThere(fleetToken, readers, n, i, Load(mac, fleetToken, readers[..n]).error);
      }
    }
  }

  lemma FailsThere(fleetToken: string, readers: seq<(string, Entry)>, n: nat, i: int, error: LoadError)
    requires 0 <= i < n <= |readers| && FailsAt(fleetToken, readers[..n], i, error)
    ensures FailsAt(fleetToken, readers, i, error)
  {
    assert forall j | 0 <= j <= i :: readers[..n][j] == readers[j];
  }

  lemma OneMoreLoads(mac: Mac, fleetToken: string, readers: seq<(string, Entry)>, n: nat)
    requires |readers| == n + 1 && Load(mac, fleetToken, readers[..n]).Ok?
    requires forall j | 0 <= j < n :: Loadable(fleetToken, readers[j].0, readers[j].1)
    ensures Load(mac, fleetToken, readers).Ok? <==> Loadable(fleetToken, readers[n].0, readers[n].1)
    ensures Load(mac, fleetToken, readers).Err? ==> FailsAt(fleetToken, readers, n, Load(mac, fleetToken, readers).error)
  {
    if Normalize(readers[n].0).Some? {
      RecordSays(mac, fleetToken, Normalize(readers[n].0).value, readers[n].1);
    }
  }

  /** Over every document that loads: the record under an id is what the last entry whose key
      has this normal form says. */
  lemma {:induction false} RecordIsLastEntry(mac: Mac, fleetToken: string, readers: seq<(string, Entry)>, id: string, i: nat)
    requires Load(mac, fleetToken, readers).Ok? && LastWith(readers, id, i)
    ensures var records := Load(mac, fleetToken, readers).value;
            id in records && Says(mac, fleetToken, id, readers[i].1, records[id])
    decreases |readers|
  {
    var n := |readers| - 1;
    RecordSays(mac, fleetToken, Normalize(readers[n].0).value, readers[n].1);
    if i < n {
      RecordIsLastEntry(mac, fleetToken, readers[..n], id, i);
    }
  }

  /** A reader is let in if it is known, switched on, and supplies a token that it may. */
  predicate LetsIn(records: map<string, Record>, id: string, supplied: string) {
    id in records && records[id].enabled && AcceptsToken(records[id], supplied)
  }

  /** So what the last entry for an id says decides who is let in: with a fleet token, who
      supplies the keyed hash of the id or the entry's own token; without, who supplies the
      entry's own token; and nobody at all for a reader that is switched off. */
  lemma EntryDecidesAdmission(mac: Mac, fleetToken: string, readers: seq<(string, Entry)>, id: string, i: nat, supplied: string)
    requires Load(mac, fleetToken, readers).Ok? && LastWith(readers, id, i)
    ensures var e := readers[i].1;
            LetsIn(Load(mac, fleetToken, readers).value, id, supplied) <==>
              && e.enabled
              && ((fleetToken != "" && supplied == mac(fleetToken, id)) || (e.token != "" && supplied == e.token))
  {
    RecordIsLastEntry(mac, fleetToken, readers, id, i);
    var _ := LoadsExactly(mac, fleetToken, readers);
    assert Loadable(fleetToken, readers[i].0, readers[i].1);
  }

  /** Enrolment equals restart: loading the rewritten document gives the registry the
      controller goes on with, the enrolled reader with the very record that was returned
      and every other reader as before. */
  lemma EnrolmentEqualsRestart(mac: Mac, d: Document, doorId: string, readerId: string, supplied: string)
    requires Load(mac, d.fleetToken, d.readers).Ok?
    requires Normalize(readerId) == Some(readerId) && readerId !in Load(mac, d.fleetToken, d.readers).value
    requires MayEnroll(mac, d, readerId, supplied)
    ensures var (record, e) := Enroll(mac, d, doorId, readerId, supplied);
            && Load(mac, e.fleetToken, e.readers) == Ok(Load(mac, d.fleetToken, d.readers).value[readerId := record.value])
            && AcceptsToken(record.value, supplied) && record.value.enabled
            && d.readers <= e.readers
  {
    KeysAreRegistered(mac, d.fleetToken, d.readers);
    forall i | 0 <= i < |d.readers| ensures d.readers[i].0 != readerId {
      assert Normalize(d.readers[i].0).value in Load(mac, d.fleetToken, d.readers).value;
    }
    var entry := Entry(Some(doorId), "", true);
    AssignAppends(d.readers, readerId, entry);
    assert (d.readers + [(readerId, entry)])[..|d.readers|] == d.readers;
  }

  // ----- Any number of enrolments -----

  datatype Request = Request(doorId: string, readerId: string, supplied: string)

  function EnrollAll(mac: Mac, d: Document, requests: seq<Request>): Document
    decreases |requests|
  {
    if requests == [] then d
    else
      var q := requests[0];
      EnrollAll(mac, Enroll(mac, d, q.doorId, q.readerId, q.supplied).1, requests[1..])
  }

  /** However many readers ask, their number never passes the limit if it began within it,
      and no setting is altered. */
  lemma {:induction false} LimitHolds(mac: Mac, d: Document, requests: seq<Request>)
    ensures var e := EnrollAll(mac, d, requests);
            && (|d.readers| <= d.maxReaders ==> |e.readers| <= e.maxReaders)
            && |d.readers| <= |e.readers|
            && e.fleetToken == d.fleetToken && e.autoEnroll == d.autoEnroll && e.maxReaders == d.maxReaders
    decreases |requests|
  {
    if requests != [] {
      var q := requests[0];
      AssignCounts(d.readers, q.readerId, Entry(Some(q.doorId), "", true));
      LimitHolds(mac, Enroll(mac, d, q.doorId, q.readerId, q.supplied).1, requests[1..]);
    }
  }

  /** The entry a dictionary has under a key. */
  function EntryOf(readers: seq<(string, Entry)>, key: string): Option<Entry>
    decreases |readers|
  {
    if readers == [] then None else if readers[0].0 == key then Some(readers[0].1) else EntryOf(readers[1..], key)
  }

  lemma {:induction false} AssignSetsEntry(readers: seq<(string, Entry)>, key: string, entry: Entry, other: string)
    ensures EntryOf(Assign(readers, key, entry), other) == if other == key then Some(entry) else EntryOf(readers, other)
    decreases |readers|
  {
    if readers != [] {
      AssignSetsEntry(readers[1..], key, entry, other);
    }
  }

  /** The door named by the last request for `key` that is accepted. */
  function EnrolledDoor(mac: Mac, d: Document, requests: seq<Request>, key: string): Option<string>
    decreases |requests|
  {
    if requests == [] then None
    else
      var q := requests[0];
      var later := EnrolledDoor(mac, Enroll(mac, d, q.doorId, q.readerId, q.supplied).1, requests[1..], key);
      if later.Some? then later
      else if q.readerId == key && MayEnroll(mac, d, q.readerId, q.supplied) then Some(q.doorId) else None
  }

  /** What any number of enrolments does to an entry.  No key is ever dropped; an entry is
      left alone exactly if its key is not enrolled or already reads as enrolled; an
      enrolled key loses its own token and is enabled. */
  lemma {:induction false} EnrolmentSetsEntry(mac: Mac, d: Document, requests: seq<Request>, key: string)
    ensures var before, after := EntryOf(d.readers, key), EntryOf(EnrollAll(mac, d, requests).readers, key);
            var door := EnrolledDoor(mac, d, requests, key);
            && after == (if door.Some? then Some(Entry(door, "", true)) else before)
            && (before.Some? ==> after.Some?)
            && (after == before <==> door.None? || before == Some(Entry(door, "", true)))
    decreases |requests|
  {
    if requests != [] {
      var q := requests[0];
      AssignSetsEntry(d.readers, q.readerId, Entry(Some(q.doorId), "", true), key);
      EnrolmentSetsEntry(mac, Enroll(mac, d, q.doorId, q.readerId, q.supplied).1, requests[1..], key);
    }
  }

  /** The case is real: a reader that was switched off, with a token of its own, is switched
      on and its token forgotten, if it is enrolled although the document has it. */
  lemma ReenrolmentForgets(mac: Mac, d: Document, door: string, readerId: string)
    requires d.autoEnroll && d.fleetToken != "" && |d.readers| < d.maxReaders
    requires EntryOf(d.readers, readerId) == Some(Entry(Some(door), "old-token", false))
    ensures EntryOf(EnrollAll(mac, d, [Request(door, readerId, mac(d.fleetToken, readerId))]).readers, readerId)
         == Some(Entry(Some(door), "", true))
  {
    EnrolmentSetsEntry(mac, d, [Request(door, readerId, mac(d.fleetToken, readerId))], readerId);
  }

  /** First contacts as the controller handles them: it enrols only readers it does not know. */
  function Admit(mac: Mac, d: Document, registry: map<string, Record>, requests: seq<Request>): (Document, map<string, Record>)
    decreases |requests|
  {
    if requests == [] then (d, registry)
    else
      var q := requests[0];
      if q.readerId in registry then Admit(mac, d, registry, requests[1..])
      else match Enroll(mac, d, q.doorId, q.readerId, q.supplied)
        case (None, _) => Admit(mac, d, registry, requests[1..])
        case (Some(record), e) => Admit(mac, e, registry[q.readerId := record], requests[1..])
  }

  /** Over any number of first contacts the running registry is what a restart would load, no
      record changes, and the document only grows at its end. */
  lemma RunningEqualsRestarted(mac: Mac, d: Document, registry: map<string, Record>, requests: seq<Request>)
    requires Load(mac, d.fleetToken, d.readers) == Ok(registry)
    requires forall i | 0 <= i < |requests| :: Normalize(requests[i].readerId) == Some(requests[i].readerId)
    ensures var (e, running) := Admit(mac, d, registry, requests);
            Load(mac, e.fleetToken, e.readers) == Ok(running) && d.readers <= e.readers
            && registry.Keys <= running.Keys && forall id :: id in registry ==> running[id] == registry[id]
  {
    AdmissionIsLoaded(mac, d, registry, requests);
    OldRecordsStay(mac, d, registry, requests);
  }

  lemma {:induction false} OldRecordsStay(mac: Mac, d: Document, registry: map<string, Record>, requests: seq<Request>)
    ensures var running := Admit(mac, d, registry, requests).1;
            registry.Keys <= running.Keys && forall id :: id in registry ==> running[id] == registry[id]
    decreases |requests|
  {
    if requests != [] {
      var q := requests[0];
      var (record, e) := Enroll(mac, d, q.doorId, q.readerId, q.supplied);
      if q.readerId !in registry && record.Some? {
        OldRecordsStay(mac, e, registry[q.readerId := record.value], requests[1..]);
      } else {
        OldRecordsStay(mac, d, registry, requests[1..]);
      }
    }
  }

  lemma {:induction false} AdmissionIsLoaded(mac: Mac, d: Document, registry: map<string, Record>, requests: seq<Request>)
    requires Load(mac, d.fleetToken, d.readers) == Ok(registry)
    requires forall i | 0 <= i < |requests| :: Normalize(requests[i].readerId) == Some(requests[i].readerId)
    ensures var (e, running) := Admit(mac, d, registry, requests);
            Load(mac, e.fleetToken, e.readers) == Ok(running) && d.readers <= e.readers
    decreases |requests|
  {
    if requests != [] {
      var q := requests[0];
      if q.readerId !in registry && MayEnroll(mac, d, q.readerId, q.supplied) {
        EnrolmentEqualsRestart(mac, d, q.doorId, q.readerId, q.supplied);
        var (record, e) := Enroll(mac, d, q.doorId, q.readerId, q.supplied);
        AdmissionIsLoaded(mac, e, registry[q.readerId := record.value], requests[1..]);
      } else {
        AdmissionIsLoaded(mac, d, registry, requests[1..]);
      }
    }
  }
}
