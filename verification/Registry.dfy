/**
  The identity tables: registered devices, used pairing tokens and the security
  audit, with their key and uniqueness constraints. Registering a device is one
  transaction; revoking one is two separate statements.
  */
module Registry {
  import opened Shared
  import opened Pairing

  datatype Status = Active | Revoked

  datatype Device = Device(key: Bytes, created: int, status: Status)

  datatype TokenRow = TokenRow(id: string, hash: Bytes, device: string, created: int, expires: int)

  datatype Event =
    | PairingSucceeded
    | PairingRejected
    | DeviceRevoked
    | ChallengeRejected
    | AuthenticationFailure
    | LoginSuccess

  datatype Entry = Entry(event: Event, device: string, success: bool, at: int)

  datatype Store = Store(devices: map<string, Device>, tokens: seq<TokenRow>, audit: seq<Entry>)

  const EMPTY_STORE := Store(map[], [], [])

  // ------------------------------------------------------------------
  // Statements
  // ------------------------------------------------------------------

  predicate HasKey(store: Store, key: Bytes) {
    exists id :: id in store.devices && store.devices[id].key == key
  }

  predicate HasHash(store: Store, hash: Bytes) {
    exists row :: row in store.tokens && row.hash == hash
  }

  predicate HasTokenId(store: Store, id: string) {
    exists row :: row in store.tokens && row.id == id
  }

  /** The device id is the primary key and the public key is unique. */
  function InsertDevice(store: Store, id: string, key: Bytes, now: int): Option<Store> {
    if id in store.devices || HasKey(store, key) then None
    else Some(store.(devices := store.devices[id := Device(key, now, Active)]))
  }

  /** The token id is the primary key, the hash is unique, and the device must exist. */
  function InsertToken(store: Store, row: TokenRow): Option<Store> {
    if HasTokenId(store, row.id) || HasHash(store, row.hash) || row.device !in store.devices then None
    else Some(store.(tokens := store.tokens + [row]))
  }

  function Audited(store: Store, entry: Entry): Store {
    store.(audit := store.audit + [entry])
  }

  /** An audit row written on a best-effort basis. */
  function MaybeAudited(store: Store, logged: bool, entry: Entry): Store {
    if logged then Audited(store, entry) else store
  }

  predicate IsActive(store: Store, id: string) {
    id in store.devices && store.devices[id].status == Active
  }

  function Mark(store: Store, id: string): Store
    requires id in store.devices
  {
    store.(devices := store.devices[id := store.devices[id].(status := Revoked)])
  }

  // ------------------------------------------------------------------
  // Registering a device
  // ------------------------------------------------------------------

  /** Which statements of the pairing transaction fail of themselves. */
  datatype StatementFaults = StatementFaults(begin: bool, findHash: bool, findDevice: bool, findKey: bool,
                           insertDevice: bool, insertToken: bool, insertAudit: bool, commit: bool)

  datatype Outcome = Paired | TokenUsed | DeviceKnown | KeyKnown | Rejected | Interrupted

  datatype Registration = Registration(outcome: Outcome, store: Store)

  /** The three inserts; any failure leaves nothing behind. */
  function InsertAll(store: Store, e: Envelope, key: Bytes, hash: Bytes, now: int, faults: StatementFaults): Option<Store> {
    match InsertDevice(store, e.deviceId, key, now)
    case None => None
    case Some(first) =>
      if faults.insertDevice then None
      else
        match InsertToken(first, TokenRow(e.deviceId, hash, e.deviceId, now, e.expiresAt * SECOND))
        case None => None
        case Some(second) =>
          if faults.insertToken || faults.insertAudit || faults.commit then None
          else Some(Audited(second, Entry(PairingSucceeded, e.deviceId, true, now)))
  }

  /** The pairing transaction. A look-up that fails counts as nothing found. */
  function Register(store: Store, e: Envelope, key: Bytes, hash: Bytes, now: int, faults: StatementFaults): Registration {
    if faults.begin then Registration(Interrupted, store)
    else if !faults.findHash && HasHash(store, hash) then Registration(TokenUsed, store)
    else if !faults.findDevice && e.deviceId in store.devices then Registration(DeviceKnown, store)
    else if !faults.findKey && HasKey(store, key) then Registration(KeyKnown, store)
    else
      match InsertAll(store, e, key, hash, now, faults)
      case None => Registration(Interrupted, store)
      case Some(after) => Registration(Paired, after)
  }

  /** Registering from a presented string; a rejected string is only audited. */
  function Replace(lib: Library, store: Store, token: string, now: int, faults: StatementFaults, logged: bool): Registration {
    match ParseToken(lib, token, now)
    case Accepted(e, key) => Register(store, e, key, lib.hash(token), now, faults)
    case _ => Registration(Rejected, MaybeAudited(store, logged, Entry(PairingRejected, "", false, now)))
  }

  // ------------------------------------------------------------------
  // Consistency
  // ------------------------------------------------------------------

  /** The devices named by the rows of one event, in order. */
  function Named(audit: seq<Entry>, event: Event): seq<string> {
    if audit == [] then []
    else
      var last := audit[|audit| - 1];
      Named(audit[..|audit| - 1], event) + if last.event == event then [last.device] else []
  }

  lemma NamedAfter(audit: seq<Entry>, entry: Entry, event: Event)
    ensures Named(audit + [entry], event)
            == Named(audit, event) + if entry.event == event then [entry.device] else []
  {
    assert (audit + [entry])[..|audit|] == audit;
  }

  function Ids(tokens: seq<TokenRow>): seq<string> {
    seq(|tokens|, i requires 0 <= i < |tokens| => tokens[i].id)
  }

  function Hashes(tokens: seq<TokenRow>): seq<Bytes> {
    seq(|tokens|, i requires 0 <= i < |tokens| => tokens[i].hash)
  }

  /** Tokens, pairing rows and devices correspond one to one. */
  predicate PairingsAgree(store: Store) {
    && Named(store.audit, PairingSucceeded) == Ids(store.tokens)
    && Distinct(Ids(store.tokens)) && Distinct(Hashes(store.tokens))
    && (forall row :: row in store.tokens ==> row.id in store.devices)
    && (forall id :: id in store.devices ==> id in Ids(store.tokens))
  }

  predicate KeysAreUnique(store: Store) {
    forall id, other :: id in store.devices && other in store.devices && id != other ==>
      store.devices[id].key != store.devices[other].key
  }

  predicate IsRevoked(store: Store, id: string) {
    id in store.devices && store.devices[id].status == Revoked
  }

  /** Revocation rows are at most one for each device, and only for revoked ones. */
  predicate RevocationsAgree(store: Store) {
    && Distinct(Named(store.audit, DeviceRevoked))
    && (forall id :: id in Named(store.audit, DeviceRevoked) ==> IsRevoked(store, id))
  }

  predicate Consistent(store: Store) {
    PairingsAgree(store) && KeysAreUnique(store) && RevocationsAgree(store)
  }

  /** New tables are consistent, so every run on them is covered. */
  lemma EmptyIsConsistent()
    ensures Consistent(EMPTY_STORE)
  {
  }

  /** What statements may do to devices: nothing is removed, renamed or reactivated. */
  predicate DevicesEvolve(before: Store, after: Store) {
    forall id :: id in before.devices ==>
      && id in after.devices
      && after.devices[id].key == before.devices[id].key
      && after.devices[id].created == before.devices[id].created
      && (before.devices[id].status == Revoked ==> after.devices[id].status == Revoked)
  }

  predicate Evolves(before: Store, after: Store) {
    && Consistent(after)
    && DevicesEvolve(before, after)
    && before.tokens <= after.tokens
    && before.audit <= after.audit
  }

  lemma EvolvesTransitive(a: Store, b: Store, c: Store)
    requires Evolves(a, b) && Evolves(b, c)
    ensures Evolves(a, c)
  {
  }

  // ------------------------------------------------------------------
  // Each statement keeps the tables consistent
  // ------------------------------------------------------------------

  /** The transaction's own checks only choose the error: what decides whether a device
      is registered are the constraints, even when every look-up fails. */
  lemma RegisteredExactlyWhenNew(store: Store, e: Envelope, key: Bytes, hash: Bytes, now: int, faults: StatementFaults)
    requires Consistent(store)
    ensures
      var r := Register(store, e, key, hash, now, faults);
      var fails := faults.begin || faults.insertDevice || faults.insertToken || faults.insertAudit || faults.commit;
      && (r.outcome == Paired <==>
            !fails && e.deviceId !in store.devices && !HasKey(store, key) && !HasHash(store, hash))
      && (r.outcome != Paired ==> r.store == store)
      && (r.outcome == Paired ==>
            r.store == Store(store.devices[e.deviceId := Device(key, now, Active)],
                             store.tokens + [TokenRow(e.deviceId, hash, e.deviceId, now, e.expiresAt * SECOND)],
                             store.audit + [Entry(PairingSucceeded, e.deviceId, true, now)]))
  {
    if HasTokenId(store, e.deviceId) {
      assert e.deviceId in store.devices;
    }
    match InsertDevice(store, e.deviceId, key, now)
    case None =>
    case Some(first) => assert first.tokens == store.tokens;
  }

  /** Which refusal comes: each look-up that does not fail is obeyed, in order; a string that
      does not parse is rejected and audited, and nothing else is audited. */
  lemma RefusedExactly(lib: Library, store: Store, token: string, now: int, faults: StatementFaults, logged: bool)
    ensures
      var parsed, r := ParseToken(lib, token, now), Replace(lib, store, token, now, faults, logged);
      && (r.outcome == Rejected <==> !parsed.Accepted?)
      && (r.outcome == Rejected ==>
            r.store == if logged then store.(audit := store.audit + [Entry(PairingRejected, "", false, now)]) else store)
      && (parsed.Accepted? ==>
            var used := HasHash(store, lib.hash(token)) && !faults.findHash;
            var known := parsed.envelope.deviceId in store.devices && !faults.findDevice;
            var taken := HasKey(store, parsed.key) && !faults.findKey;
            && (r.outcome == TokenUsed <==> !faults.begin && used)
            && (r.outcome == DeviceKnown <==> !faults.begin && !used && known)
            && (r.outcome == KeyKnown <==> !faults.begin && !used && !known && taken))
  {
  }

  lemma RegisteringEvolves(store: Store, id: string, key: Bytes, hash: Bytes, now: int, expires: int)
    requires Consistent(store)
    requires id !in store.devices && !HasKey(store, key) && !HasHash(store, hash)
    ensures Evolves(store, Store(store.devices[id := Device(key, now, Active)],
                                 store.tokens + [TokenRow(id, hash, id, now, expires)],
                                 store.audit + [Entry(PairingSucceeded, id, true, now)]))
  {
    var row, entry := TokenRow(id, hash, id, now, expires), Entry(PairingSucceeded, id, true, now);
    var after := Store(store.devices[id := Device(key, now, Active)], store.tokens + [row], store.audit + [entry]);
    NamedAfter(store.audit, entry, PairingSucceeded);
    NamedAfter(store.audit, entry, DeviceRevoked);
    assert Ids(after.tokens) == Ids(store.tokens) + [id];
    assert Hashes(after.tokens) == Hashes(store.tokens) + [hash];
    assert id !in Ids(store.tokens) by {
      forall i | 0 <= i < |store.tokens|
        ensures Ids(store.tokens)[i] != id
      {
        assert store.tokens[i] in store.tokens;
      }
    }
    assert hash !in Hashes(store.tokens) by {
      forall i | 0 <= i < |store.tokens|
        ensures Hashes(store.tokens)[i] != hash
      {
        assert store.tokens[i] in store.tokens;
      }
    }
  }

  lemma ReplaceEvolves(lib: Library, store: Store, token: string, now: int, faults: StatementFaults, logged: bool)
    requires Consistent(store)
    ensures Evolves(store, Replace(lib, store, token, now, faults, logged).store)
    ensures Named(Replace(lib, store, token, now, faults, logged).store.audit, DeviceRevoked)
            == Named(store.audit, DeviceRevoked)
  {
    match ParseToken(lib, token, now)
    case Accepted(e, key) =>
      var hash := lib.hash(token);
      RegisteredExactlyWhenNew(store, e, key, hash, now, faults);
      if Register(store, e, key, hash, now, faults).outcome == Paired {
        RegisteringEvolves(store, e.deviceId, key, hash, now, e.expiresAt * SECOND);
        NamedAfter(store.audit, Entry(PairingSucceeded, e.deviceId, true, now), DeviceRevoked);
      }
    case _ => AuditingEvolves(store, Entry(PairingRejected, "", false, now));
  }

  lemma MarkEvolves(store: Store, id: string)
    requires Consistent(store) && id in store.devices
    ensures Evolves(store, Mark(store, id))
  {
  }

  lemma AuditingEvolves(store: Store, entry: Entry)
    requires Consistent(store)
    requires entry.event != PairingSucceeded && entry.event != DeviceRevoked
    ensures Evolves(store, Audited(store, entry))
    ensures Named(Audited(store, entry).audit, DeviceRevoked) == Named(store.audit, DeviceRevoked)
  {
    NamedAfter(store.audit, entry, PairingSucceeded);
    NamedAfter(store.audit, entry, DeviceRevoked);
  }

  lemma AuditingRevocationEvolves(store: Store, id: string, now: int)
    requires Consistent(store) && IsRevoked(store, id)
    requires id !in Named(store.audit, DeviceRevoked)
    ensures Evolves(store, Audited(store, Entry(DeviceRevoked, id, true, now)))
    ensures Named(Audited(store, Entry(DeviceRevoked, id, true, now)).audit, DeviceRevoked)
            == Named(store.audit, DeviceRevoked) + [id]
  {
    NamedAfter(store.audit, Entry(DeviceRevoked, id, true, now), PairingSucceeded);
    NamedAfter(store.audit, Entry(DeviceRevoked, id, true, now), DeviceRevoked);
  }

  // ------------------------------------------------------------------
  // Counting
  // ------------------------------------------------------------------

  lemma {:induction false} DistinctFits<T>(s: seq<T>, all: set<T>)
    requires Distinct(s) && forall x :: x in s ==> x in all
    ensures |s| <= |all|
    ensures (forall x :: x in all ==> x in s) ==> |s| == |all|
  {
    if s == [] {
      if forall x :: x in all ==> x in s {
        assert all == {};
      }
    } else {
      var front, last := s[..|s| - 1], s[|s| - 1];
      DistinctFits(front, all - {last});
    }
  }

  /** There are as many devices as tokens and as pairing rows, and never more
      revocation rows than revoked devices. */
  lemma RowsAreCounted(store: Store)
    requires Consistent(store)
    ensures |store.tokens| == |store.devices| == |Named(store.audit, PairingSucceeded)|
    ensures |Named(store.audit, DeviceRevoked)|
            <= |set id | id in store.devices && store.devices[id].status == Revoked|
  {
    assert forall x :: x in Ids(store.tokens) ==> x in store.devices.Keys by {
      forall i | 0 <= i < |store.tokens|
        ensures Ids(store.tokens)[i] in store.devices.Keys
      {
        assert store.tokens[i] in store.tokens;
      }
    }
    DistinctFits(Ids(store.tokens), store.devices.Keys);
    DistinctFits(Named(store.audit, DeviceRevoked),
                 set id | id in store.devices && store.devices[id].status == Revoked);
  }
}
