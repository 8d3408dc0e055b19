/**
 The token document of models/Hash.js and the collection that holds it.
 A record binds a single-use token (`hash`) to the shift (`passo`) it was
 issued with and to the user who issued it; `usado` and `usadoEm` record its
 one consumption. The collection is a map keyed by `hash`, which the schema
 declares required and unique.
 */
module HashRecord {

  import opened Wrappers

  /** `usuarioId`: the identity of the issuing user, opaque to this model. */
  type UserId = string

  /** A date, in milliseconds since the epoch. */
  type Timestamp = int

  datatype TokenRecord = TokenRecord(
    hash: string,
    passo: int,
    usado: bool,
    usuarioId: UserId,
    criadoEm: Timestamp,
    usadoEm: Option<Timestamp>)

  /** The token collection, keyed by `hash`. */
  type Store = map<string, TokenRecord>

  /** `usadoEm` stays null exactly as long as the token is unused. */
  predicate Lifecycle(r: TokenRecord) {
    r.usado <==> r.usadoEm.Some?
  }

  /**
   Every record is filed under its own `hash`, which is non-empty (a required
   string), so no two records share a token; and every record keeps the
   link between `usado` and `usadoEm`.
   */
  predicate StoreValid(s: Store) {
    forall h :: h in s ==> h != "" && s[h].hash == h && Lifecycle(s[h])
  }

  /**
   The only change a record may undergo: its identity, shift, owner and
   creation date never change, and once used it never changes again.
   */
  predicate LegalUpdate(r: TokenRecord, r': TokenRecord) {
    && r'.hash == r.hash
    && r'.passo == r.passo
    && r'.usuarioId == r.usuarioId
    && r'.criadoEm == r.criadoEm
    && (r.usado ==> r' == r)
  }

  /** A later state of the collection: no record is removed, each one changes only legally. */
  predicate Evolves(s: Store, s': Store) {
    && s.Keys <= s'.Keys
    && forall h :: h in s ==> LegalUpdate(s[h], s'[h])
  }

  /**
   `new Hash({hash, passo, usado: false, usuarioId})`: the schema defaults
   give an unused record with a null `usadoEm`, dated at creation.
   */
  function NewRecord(hash: string, passo: int, usuarioId: UserId, now: Timestamp): (r: TokenRecord)
    ensures Lifecycle(r) && !r.usado
    ensures r.hash == hash && r.passo == passo && r.usuarioId == usuarioId && r.criadoEm == now
  {
    TokenRecord(hash, passo, false, usuarioId, now, None)
  }

  /**
   The consumption of a token (`usado = true; usadoEm = new Date()`): a legal
   update that turns an unused record into a used one dated `now`.
   */
  function Consume(r: TokenRecord, now: Timestamp): (r': TokenRecord)
    requires Lifecycle(r) && !r.usado
    ensures Lifecycle(r') && r'.usado && r'.usadoEm == Some(now)
    ensures LegalUpdate(r, r')
  {
    r.(usado := true, usadoEm := Some(now))
  }

  /** Adding a fresh, unused record keeps the collection valid and changes no other record. */
  lemma InsertFresh(s: Store, hash: string, passo: int, usuarioId: UserId, now: Timestamp)
    requires StoreValid(s) && hash != "" && hash !in s
    ensures StoreValid(s[hash := NewRecord(hash, passo, usuarioId, now)])
    ensures Evolves(s, s[hash := NewRecord(hash, passo, usuarioId, now)])
  {
  }

  /** Consuming one unused record keeps the collection valid and is a legal evolution. */
  lemma ConsumeOne(s: Store, hash: string, now: Timestamp)
    requires StoreValid(s) && hash in s && !s[hash].usado
    ensures StoreValid(s[hash := Consume(s[hash], now)])
    ensures Evolves(s, s[hash := Consume(s[hash], now)])
  {
  }

  /** Evolution composes, so any run of operations is a legal evolution. */
  lemma EvolvesTransitive(s1: Store, s2: Store, s3: Store)
    requires Evolves(s1, s2) && Evolves(s2, s3)
    ensures Evolves(s1, s3)
  {
  }

  /** A used token stays used, with the same `usadoEm`, in every later state: it is never reset. */
  lemma UsedIsFinal(s: Store, s': Store, h: string)
    requires Evolves(s, s') && h in s && s[h].usado
    ensures h in s' && s'[h] == s[h] && s'[h].usado
  {
  }

  /** No two records of a valid collection carry the same token. */
  lemma TokensUnique(s: Store, h1: string, h2: string)
    requires StoreValid(s) && h1 in s && h2 in s && h1 != h2
    ensures s[h1].hash != s[h2].hash
  {
  }

}
