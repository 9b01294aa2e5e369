/** The server-managed session key: when it is created, loaded, and replaced. */
module SessionKeys {
  import opened Wrappers
  import opened SessionModel
  import opened SessionStore

  const MANAGED_KEY_BYTES := 32
  type ManagedKey = k: seq<Byte> | |k| == 32 witness seq(32, _ => 0)

  /** Which of a call's effects on SQLite and on the native credential store succeed. */
  datatype KeyIo = KeyIo(identityOk: bool, loadOk: bool, deleteOk: bool, countOk: bool, storeOk: bool)

  /** Rows, stored key and result after `load_or_create_managed_session_key`. */
  function LoadOrCreateKey(rows: Rows, stored: Option<Secret>, now: SystemTime, generated: ManagedKey, io: KeyIo)
    : (Rows, Option<Secret>, Result<Secret, ServerError>)
  {
    if !io.identityOk || !io.loadOk then (rows, stored, Failure(Storage))
    else if stored.Some? then
      (rows, stored, if |stored.value| != MANAGED_KEY_BYTES then Failure(InvalidConfiguration) else Success(stored.value))
    else if now < 0 then (rows, stored, Failure(Internal))
    else if !io.deleteOk then (rows, stored, Failure(Storage))
    else
      var swept := DeleteExpiredRows(rows, UnixSeconds(now));
      if !io.countOk then (swept, stored, Failure(Storage))
      else if 0 < |swept| then (swept, stored, Failure(InvalidConfiguration))
      else if !io.storeOk then (swept, stored, Failure(Storage))
      else (swept, Some(generated), Success(generated))
  }

  /** Rows, stored key and result after `rotate_managed_session_key`. */
  function RotateKey(rows: Rows, stored: Option<Secret>, generated: ManagedKey, io: KeyIo)
    : (Rows, Option<Secret>, Result<nat, ServerError>)
  {
    if !io.identityOk || !io.deleteOk then (rows, stored, Failure(Storage))
    else if !io.storeOk then (map[], stored, Failure(Storage))
    else (map[], Some(generated), Success(|rows|))
  }

  method LoadOrCreateManagedSessionKey(
    database: MetadataDatabase, keyStore: SessionEncryptionKeyStore, now: SystemTime, generated: ManagedKey, io: KeyIo)
    returns (r: Result<Secret, ServerError>)
    modifies database, keyStore
    ensures (database.rows, keyStore.secret, r)
         == LoadOrCreateKey(old(database.rows), old(keyStore.secret), now, generated, io)
  {
    if !io.identityOk { return Failure(Storage); }
    var loaded := keyStore.Load(io.loadOk);
    if loaded.Failure? { return Failure(loaded.error); }
    if loaded.value.Some? {
      var secret := loaded.value.value;
      return if |secret| != MANAGED_KEY_BYTES then Failure(InvalidConfiguration) else Success(secret);
    }
    if now < 0 { return Failure(Internal); }
    var deleted := database.DeleteExpiredSessions(UnixSeconds(now), io.deleteOk);
    if deleted.Failure? { return Failure(deleted.error); }
    if !io.countOk { return Failure(Storage); }
    if 0 < |database.rows| { return Failure(InvalidConfiguration); }
    var stored := keyStore.Store(generated, io.storeOk);
    if stored.Failure? { return Failure(stored.error); }
    return Success(generated);
  }

  method RotateManagedSessionKey(
    database: MetadataDatabase, keyStore: SessionEncryptionKeyStore, generated: ManagedKey, io: KeyIo)
    returns (r: Result<nat, ServerError>)
    modifies database, keyStore
    ensures (database.rows, keyStore.secret, r)
         == RotateKey(old(database.rows), old(keyStore.secret), generated, io)
  {
    if !io.identityOk { return Failure(Storage); }
    var invalidated := database.DeleteAllSessions(io.deleteOk);
    if invalidated.Failure? { return Failure(invalidated.error); }
    var stored := keyStore.Store(generated, io.storeOk);
    if stored.Failure? { return Failure(stored.error); }
    return invalidated;
  }

  // ----- What the answers mean -----

  /** A key is answered exactly if it is the stored one and has the right length, or none is stored, no row is
      unexpired, and the generated one could be stored. */
  lemma KeyIsAnsweredIff(
    rows: Rows, stored: Option<Secret>, now: SystemTime, generated: ManagedKey, io: KeyIo, secret: Secret)
    ensures LoadOrCreateKey(rows, stored, now, generated, io).2 == Success(secret) <==>
            io.identityOk && io.loadOk
            && if stored.Some? then stored.value == secret && |secret| == 32
               else secret == generated && 0 <= now && io.deleteOk && io.countOk && io.storeOk
                    && forall k :: k in rows ==> rows[k].expiresSeconds <= UnixSeconds(now)
  {
    var swept := DeleteExpiredRows(rows, UnixSeconds(now));
    if 0 < |swept| {
      assert swept.Keys != {};
      var k: Digest :| k in swept.Keys;
    } else {
      assert forall k :: k in rows && UnixSeconds(now) < rows[k].expiresSeconds ==> k in swept;
    }
  }

  /** The stored key changes only from none to the generated one, when that is answered; no unexpired row goes, and
      with a stored key no row at all. */
  lemma LoadingKeyEffects(rows: Rows, stored: Option<Secret>, now: SystemTime, generated: ManagedKey, io: KeyIo, k: Digest)
    ensures var (after, key, answer) := LoadOrCreateKey(rows, stored, now, generated, io);
            key == (if stored.None? && answer.Success? then Some(generated) else stored)
            && (k in after ==> k in rows && after[k] == rows[k])
            && (k in rows && (stored.Some? || UnixSeconds(now) < rows[k].expiresSeconds) ==> k in after)
  {
  }

  /** A rotation succeeds exactly if every effect does, and answers the number of rows; the rows go exactly if their
      deletion is reached and succeeds, and only then can the key change. */
  lemma RotationEffects(rows: Rows, stored: Option<Secret>, generated: ManagedKey, io: KeyIo)
    ensures var (after, key, answer) := RotateKey(rows, stored, generated, io);
            (answer.Success? <==> io.identityOk && io.deleteOk && io.storeOk)
            && (answer.Success? ==> answer.value == |rows|)
            && after == (if io.identityOk && io.deleteOk then map[] else rows)
            && key == (if answer.Success? then Some(generated) else stored)
  {
  }
}
