/**
 The three handlers of routes/cipher.js, read as operations on the token
 collection: `/criptografar` issues a token, `/descriptografar` redeems it
 once, `/historico` lists the caller's tokens. Each handler is an atomic
 method of `TokenService`, whose `tokens` field is the collection; the clock
 (`Date.now`, `new Date()`) is the parameter `now`, and the token generator
 (`gerarHash`) is the sequence `candidates` of the tokens it would produce.
 */
module CipherRoutes {

  import opened Wrappers
  import opened Caesar
  import opened HashRecord

  /** `/historico` returns at most this many records (`.limit(50)`). */
  const HistoryLimit: nat := 50

  /** Why a request is refused with status 400. */
  datatype Rejection =
    | MissingFields   // a required field is missing or empty
    | InvalidMessage  // `mensagem` is not made of a-z, A-Z, 0-9 only
    | InvalidShift    // `passo` does not parse as an integer

  /** The `passo` field of a request: absent, present but `parseInt` gives NaN, or an integer. */
  datatype ShiftField = Absent | NotANumber | Parsed(value: int)

  /** The request fields that passed validation. */
  datatype Validated = Accepted(mensagem: string, passo: int) | Rejected(why: Rejection)

  /** 201 with the ciphertext and the new token, or 400. */
  datatype EncryptOutcome =
    | Encrypted(mensagemOriginal: string, mensagemCifrada: string, hash: string, passo: int)
    | EncryptRejected(why: Rejection)

  /** 200 with the plaintext, 400, 404 (unknown token) or 403 (token already used, with its date). */
  datatype DecryptOutcome =
    | Decrypted(mensagemCriptografada: string, mensagemOriginal: string, passo: int)
    | DecryptRejected(why: Rejection)
    | NotFound
    | AlreadyUsed(usadoEm: Option<Timestamp>)

  /**
   One line of the history: the fields named by
   `.select('hash passo usado criadoEm usadoEm')`. The database also returns
   the document identifier `_id` on each line, which this model does not carry.
   */
  datatype HistoryEntry = HistoryEntry(hash: string, passo: int, usado: bool, criadoEm: Timestamp, usadoEm: Option<Timestamp>)

  /** A string field is truthy in JavaScript: given and not empty. */
  predicate Present(field: Option<string>) {
    field.Some? && field.value != ""
  }

  /** The whole text matches `/^[a-zA-Z0-9]+$/`. */
  predicate Alphanumeric(text: string) {
    |text| > 0 && forall i :: 0 <= i < |text| ==> IsAlnum(text[i])
  }

  /**
   The checks of `/criptografar`, in their order: missing fields first, then
   the character set of the message, then the shift. A request is accepted
   exactly when the message is a non-empty alphanumeric text and the shift
   an integer.
   */
  function ValidateEncrypt(mensagem: Option<string>, passo: ShiftField): (v: Validated)
    ensures v.Accepted? <==> Present(mensagem) && Alphanumeric(mensagem.value) && passo.Parsed?
    ensures v.Accepted? ==> v.mensagem == mensagem.value && v.passo == passo.value
    ensures v == Rejected(MissingFields) <==> !Present(mensagem) || passo.Absent?
    ensures v == Rejected(InvalidMessage) <==> Present(mensagem) && !passo.Absent? && !Alphanumeric(mensagem.value)
  {
    if !Present(mensagem) || passo.Absent? then Rejected(MissingFields)
    else if !Alphanumeric(mensagem.value) then Rejected(InvalidMessage)
    else if passo.NotANumber? then Rejected(InvalidShift)
    else Accepted(mensagem.value, passo.value)
  }

  /** An accepted message enciphers to an alphanumeric text of the same length, itself a valid message. */
  lemma {:induction false} CiphertextAlphanumeric(mensagem: Option<string>, passo: ShiftField)
    requires ValidateEncrypt(mensagem, passo).Accepted?
    ensures var v := ValidateEncrypt(mensagem, passo);
      var c := Encipher(v.mensagem, v.passo);
      Alphanumeric(c) && |c| == |v.mensagem| && ValidateEncrypt(Some(c), passo) == v.(mensagem := c)
  {
    var v := ValidateEncrypt(mensagem, passo);
    var c := Encipher(v.mensagem, v.passo);
    forall i | 0 <= i < |c|
      ensures IsAlnum(c[i])
    {
      assert IsAlnum(v.mensagem[i]);
    }
  }

  /**
   Where the retry loop of `/criptografar` stops: the first generated token
   that is not yet in the collection.
   */
  function FirstFresh(s: Store, candidates: seq<string>): (k: nat)
    requires exists i :: 0 <= i < |candidates| && candidates[i] !in s
    ensures k < |candidates| && candidates[k] !in s
    ensures forall j :: 0 <= j < k ==> candidates[j] in s
  {
    if candidates[0] !in s then 0
    else
      assert exists i :: 0 <= i < |candidates| - 1 && candidates[1..][i] !in s by {
        var i :| 0 <= i < |candidates| && candidates[i] !in s;
        assert candidates[1..][i - 1] == candidates[i];
      }
      1 + FirstFresh(s, candidates[1..])
  }

  /** Records listed newest first: `criadoEm` never increases along the sequence. */
  predicate NewestFirst(rs: seq<TokenRecord>) {
    forall i, j :: 0 <= i < j < |rs| ==> rs[i].criadoEm >= rs[j].criadoEm
  }

  /** No token appears twice in the sequence. */
  predicate DistinctTokens(rs: seq<TokenRecord>) {
    forall i, j :: 0 <= i < j < |rs| ==> rs[i].hash != rs[j].hash
  }

  /** The tokens of the records in a sequence. */
  function Tokens(rs: seq<TokenRecord>): set<string> {
    set r | r in rs :: r.hash
  }

  /** The tokens issued by `usuarioId` (`Hash.find({ usuarioId })`). */
  function Owned(s: Store, usuarioId: UserId): set<string> {
    set h | h in s && s[h].usuarioId == usuarioId
  }

  /**
   Inserts a record into a newest-first sequence, before the first record that
   is not newer than it: the result holds the old records and the new one.
   */
  function InsertNewestFirst(rs: seq<TokenRecord>, r: TokenRecord): (out: seq<TokenRecord>)
    ensures multiset(out) == multiset(rs) + multiset{r}
  {
    if rs == [] || r.criadoEm >= rs[0].criadoEm then [r] + rs
    else
      assert rs == [rs[0]] + rs[1..];
      [rs[0]] + InsertNewestFirst(rs[1..], r)
  }

  /** Insertion adds exactly one record, and its token, to the sequence. */
  lemma InsertContents(rs: seq<TokenRecord>, r: TokenRecord)
    ensures |InsertNewestFirst(rs, r)| == |rs| + 1
    ensures forall x :: x in InsertNewestFirst(rs, r) <==> x in rs || x == r
    ensures Tokens(InsertNewestFirst(rs, r)) == Tokens(rs) + {r.hash}
  {
    var out := InsertNewestFirst(rs, r);
    assert |multiset(out)| == |multiset(rs)| + 1;
    forall x
      ensures x in out <==> x in rs || x == r
    {
      assert x in out <==> x in multiset(out);
      assert x in rs <==> x in multiset(rs);
    }
  }

  /** Insertion keeps a sequence newest first. */
  lemma {:induction false} InsertKeepsNewestFirst(rs: seq<TokenRecord>, r: TokenRecord)
    requires NewestFirst(rs)
    ensures NewestFirst(InsertNewestFirst(rs, r))
  {
    if rs == [] || r.criadoEm >= rs[0].criadoEm {
    } else {
      var rest := InsertNewestFirst(rs[1..], r);
      InsertKeepsNewestFirst(rs[1..], r);
      forall j | 0 <= j < |rest|
        ensures rs[0].criadoEm >= rest[j].criadoEm
      {
        assert rest[j] in multiset(rest);
        if rest[j] != r {
          assert rest[j] in multiset(rs[1..]);
          var k :| 0 <= k < |rs[1..]| && rs[1..][k] == rest[j];
          assert rs[k + 1] == rest[j];
        }
      }
    }
  }

  /** Inserting a record whose token is new keeps the tokens distinct. */
  lemma {:induction false} InsertKeepsDistinct(rs: seq<TokenRecord>, r: TokenRecord)
    requires DistinctTokens(rs) && r.hash !in Tokens(rs)
    ensures DistinctTokens(InsertNewestFirst(rs, r))
  {
    if rs == [] || r.criadoEm >= rs[0].criadoEm {
      assert forall j :: 0 <= j < |rs| ==> rs[j] in rs;
    } else {
      var rest := InsertNewestFirst(rs[1..], r);
      assert forall x :: x in rs[1..] ==> x in rs;
      InsertKeepsDistinct(rs[1..], r);
      forall j | 0 <= j < |rest|
        ensures rs[0].hash != rest[j].hash
      {
        assert rest[j] in multiset(rest);
        if rest[j] != r {
          assert rest[j] in multiset(rs[1..]);
          var k :| 0 <= k < |rs[1..]| && rs[1..][k] == rest[j];
          assert rs[k + 1] == rest[j];
        }
      }
    }
  }

  /** What `/historico` shows of a record. */
  function Summary(r: TokenRecord): HistoryEntry {
    HistoryEntry(r.hash, r.passo, r.usado, r.criadoEm, r.usadoEm)
  }

  /** The first 50 records of a sequence (`.limit(50)`), as history lines. */
  function Limit(newest: seq<TokenRecord>): seq<HistoryEntry> {
    var n := if |newest| < HistoryLimit then |newest| else HistoryLimit;
    seq(n, i requires 0 <= i < n => Summary(newest[i]))
  }

  /**
   What the history of `usuarioId` must be: as many lines as the caller has
   records, up to 50; each line shows one of the caller's records; no token
   twice and newest first; and when records are left out the list is full
   and none of them is newer than the last line.
   */
  predicate IsHistory(s: Store, usuarioId: UserId, entries: seq<HistoryEntry>) {
    && |entries| == (if |Owned(s, usuarioId)| < HistoryLimit then |Owned(s, usuarioId)| else HistoryLimit)
    && LinesOwned(s, usuarioId, entries)
    && LinesOrdered(entries)
    && OthersOlder(s, usuarioId, entries)
  }

  predicate LinesOwned(s: Store, usuarioId: UserId, entries: seq<HistoryEntry>) {
    forall i :: 0 <= i < |entries| ==>
      && entries[i].hash in s
      && s[entries[i].hash].usuarioId == usuarioId
      && entries[i] == Summary(s[entries[i].hash])
  }

  /**
   Newest first and no token twice, stated on history lines rather than on
   records: a line has no owner, so `NewestFirst` and `DistinctTokens` do not
   apply to it. `LimitLines` derives this from those two through `Summary`.
   */
  predicate LinesOrdered(entries: seq<HistoryEntry>) {
    forall i, j :: 0 <= i < j < |entries| ==>
      entries[i].hash != entries[j].hash && entries[i].criadoEm >= entries[j].criadoEm
  }

  predicate OthersOlder(s: Store, usuarioId: UserId, entries: seq<HistoryEntry>) {
    forall h :: h in Owned(s, usuarioId) && (forall i :: 0 <= i < |entries| ==> entries[i].hash != h) ==>
      |entries| == HistoryLimit && s[h].criadoEm <= entries[HistoryLimit - 1].criadoEm
  }

  /**
   The state of the history query once the tokens in `pending` are still to
   be looked at: `newest` holds exactly the caller's records among the others,
   each once, newest first.
   */
  predicate Collected(s: Store, usuarioId: UserId, pending: set<string>, newest: seq<TokenRecord>) {
    && pending <= s.Keys
    && (forall x :: x in newest ==> x.hash in s && s[x.hash] == x && x.usuarioId == usuarioId)
    && Tokens(newest) == Owned(s, usuarioId) - pending
    && |newest| == |Owned(s, usuarioId) - pending|
    && NewestFirst(newest)
    && DistinctTokens(newest)
  }

  /** Looking at one more token, and inserting its record when it is the caller's, keeps `Collected`. */
  lemma CollectStep(s: Store, usuarioId: UserId, pending: set<string>, newest: seq<TokenRecord>, h: string)
    requires StoreValid(s) && Collected(s, usuarioId, pending, newest) && h in pending
    ensures Collected(s, usuarioId, pending - {h},
      if s[h].usuarioId == usuarioId then InsertNewestFirst(newest, s[h]) else newest)
  {
    if s[h].usuarioId == usuarioId {
      CollectOwned(s, usuarioId, pending, newest, h);
    } else {
      assert Owned(s, usuarioId) - (pending - {h}) == Owned(s, usuarioId) - pending;
    }
  }

  lemma CollectOwned(s: Store, usuarioId: UserId, pending: set<string>, newest: seq<TokenRecord>, h: string)
    requires StoreValid(s) && Collected(s, usuarioId, pending, newest) && h in pending
    requires s[h].usuarioId == usuarioId
    ensures Collected(s, usuarioId, pending - {h}, InsertNewestFirst(newest, s[h]))
  {
    var done := Owned(s, usuarioId) - pending;
    assert h !in done;
    forall x | x in newest
      ensures x.hash != s[h].hash
    {
      TokensUnique(s, h, x.hash);
    }
    InsertKeepsNewestFirst(newest, s[h]);
    InsertKeepsDistinct(newest, s[h]);
    InsertContents(newest, s[h]);
    assert Owned(s, usuarioId) - (pending - {h}) == done + {h};
  }

  /** Limiting the complete newest-first list of the caller's records gives their history. */
  lemma LimitIsHistory(s: Store, usuarioId: UserId, newest: seq<TokenRecord>)
    requires Collected(s, usuarioId, {}, newest)
    ensures IsHistory(s, usuarioId, Limit(newest))
  {
    var entries := Limit(newest);
    assert Owned(s, usuarioId) - {} == Owned(s, usuarioId);
    LimitLines(s, usuarioId, newest);
    forall h | h in Owned(s, usuarioId) && (forall i :: 0 <= i < |entries| ==> entries[i].hash != h)
      ensures |entries| == HistoryLimit && s[h].criadoEm <= entries[HistoryLimit - 1].criadoEm
    {
      LimitLeavesOutOlder(s, usuarioId, newest, h);
    }
  }

  /** The lines kept by the limit are the caller's records, in the order of the list. */
  lemma LimitLines(s: Store, usuarioId: UserId, newest: seq<TokenRecord>)
    requires Collected(s, usuarioId, {}, newest)
    ensures LinesOwned(s, usuarioId, Limit(newest)) && LinesOrdered(Limit(newest))
  {
    var entries := Limit(newest);
    assert forall i :: 0 <= i < |entries| ==> entries[i] == Summary(newest[i]) && newest[i] in newest;
  }

  /** A record of the caller that the limit leaves out lies past the 50th line and is not newer than it. */
  lemma LimitLeavesOutOlder(s: Store, usuarioId: UserId, newest: seq<TokenRecord>, h: string)
    requires Collected(s, usuarioId, {}, newest)
    requires h in Owned(s, usuarioId)
    requires forall i :: 0 <= i < |Limit(newest)| ==> Limit(newest)[i].hash != h
    ensures |Limit(newest)| == HistoryLimit && s[h].criadoEm <= Limit(newest)[HistoryLimit - 1].criadoEm
  {
    assert h in Tokens(newest);
    var j :| 0 <= j < |newest| && newest[j].hash == h;
    assert newest[j] in newest;
    assert forall i :: 0 <= i < |Limit(newest)| ==> Limit(newest)[i] == Summary(newest[i]);
    assert forall i :: 0 <= i < |Limit(newest)| ==> newest[i].hash != h;
  }

  class TokenService {

    /** The token collection. */
    var tokens: Store

    ghost predicate Valid()
      reads this
    {
      StoreValid(tokens)
    }

    /** An empty collection. */
    constructor ()
      ensures Valid() && tokens == map[]
    {
      tokens := map[];
    }

    /**
     `POST /criptografar`. A request that fails validation changes nothing.
     Otherwise the message is enciphered with the shift, the generator is
     asked again until it yields a token not in the collection, and exactly
     one unused record for that token, the shift and the caller is added.
     The generator is assumed to yield a fresh non-empty token eventually,
     as the source's unbounded loop needs.
     */
    method Encrypt(mensagem: Option<string>, passo: ShiftField, usuarioId: UserId, candidates: seq<string>, now: Timestamp)
      returns (out: EncryptOutcome)
      requires Valid()
      requires forall i :: 0 <= i < |candidates| ==> candidates[i] != ""
      requires exists i :: 0 <= i < |candidates| && candidates[i] !in tokens
      modifies this
      ensures Valid() && Evolves(old(tokens), tokens)
      ensures ValidateEncrypt(mensagem, passo).Rejected? ==>
        out == EncryptRejected(ValidateEncrypt(mensagem, passo).why) && tokens == old(tokens)
      ensures ValidateEncrypt(mensagem, passo).Accepted? ==>
        var v := ValidateEncrypt(mensagem, passo);
        var hash := candidates[FirstFresh(old(tokens), candidates)];
        && hash !in old(tokens)
        && |tokens| == |old(tokens)| + 1
        && out == Encrypted(v.mensagem, Encipher(v.mensagem, v.passo), hash, v.passo)
        && tokens == old(tokens)[hash := NewRecord(hash, v.passo, usuarioId, now)]
    {
      var v := ValidateEncrypt(mensagem, passo);
      if v.Rejected? {
        return EncryptRejected(v.why);
      }
      var mensagemCifrada := Encipher(v.mensagem, v.passo);
      ghost var k := FirstFresh(tokens, candidates);
      var i := 0;
      var hash := candidates[0];
      while hash in tokens
        invariant 0 <= i <= k && hash == candidates[i]
        decreases k - i
      {
        i := i + 1;
        hash := candidates[i];
      }
      InsertFresh(tokens, hash, v.passo, usuarioId, now);
      tokens := tokens[hash := NewRecord(hash, v.passo, usuarioId, now)];
      out := Encrypted(v.mensagem, mensagemCifrada, hash, v.passo);
    }

    /**
     `POST /descriptografar`. Missing fields, an unknown token and a used
     token change nothing; a used token reports when it was used. Otherwise
     the supplied text (not checked against anything stored) is deciphered
     with the token's shift, and that one record is consumed.
     */
    method Decrypt(mensagemCripto: Option<string>, hash: Option<string>, now: Timestamp)
      returns (out: DecryptOutcome)
      requires Valid()
      modifies this
      ensures Valid() && Evolves(old(tokens), tokens)
      ensures !Present(mensagemCripto) || !Present(hash) ==>
        out == DecryptRejected(MissingFields) && tokens == old(tokens)
      ensures Present(mensagemCripto) && Present(hash) && hash.value !in old(tokens) ==>
        out == NotFound && tokens == old(tokens)
      ensures Present(mensagemCripto) && Present(hash) && hash.value in old(tokens) && old(tokens)[hash.value].usado ==>
        out == AlreadyUsed(old(tokens)[hash.value].usadoEm) && out.usadoEm.Some? && tokens == old(tokens)
      ensures Present(mensagemCripto) && Present(hash) && hash.value in old(tokens) && !old(tokens)[hash.value].usado ==>
        var r := old(tokens)[hash.value];
        && out == Decrypted(mensagemCripto.value, Decipher(mensagemCripto.value, r.passo), r.passo)
        && tokens == old(tokens)[hash.value := Consume(r, now)]
    {
      if !Present(mensagemCripto) || !Present(hash) {
        return DecryptRejected(MissingFields);
      }
      var key := hash.value;
      if key !in tokens {
        return NotFound;
      }
      var doc := tokens[key];
      if doc.usado {
        return AlreadyUsed(doc.usadoEm);
      }
      var mensagemOriginal := Decipher(mensagemCripto.value, doc.passo);
      ConsumeOne(tokens, key, now);
      tokens := tokens[key := Consume(doc, now)];
      out := Decrypted(mensagemCripto.value, mensagemOriginal, doc.passo);
    }

    /**
     The caller's records, all of them, newest first: what the query
     `Hash.find({ usuarioId }).sort({ criadoEm: -1 })` yields before its limit.
     */
    method OwnedNewestFirst(usuarioId: UserId) returns (newest: seq<TokenRecord>)
      requires Valid()
      ensures Collected(tokens, usuarioId, {}, newest)
    {
      newest := [];
      var pending := tokens.Keys;
      while pending != {}
        invariant Collected(tokens, usuarioId, pending, newest)
        decreases pending
      {
        var h :| h in pending;
        CollectStep(tokens, usuarioId, pending, newest, h);
        if tokens[h].usuarioId == usuarioId {
          newest := InsertNewestFirst(newest, tokens[h]);
        }
        pending := pending - {h};
      }
    }

    /**
     `GET /historico`: the caller's records, newest first, at most 50, shown
     without their owner.
     */
    method History(usuarioId: UserId) returns (entries: seq<HistoryEntry>)
      requires Valid()
      ensures IsHistory(tokens, usuarioId, entries)
    {
      var newest := OwnedNewestFirst(usuarioId);
      LimitIsHistory(tokens, usuarioId, newest);
      entries := Limit(newest);
    }
  }

  /**
   Exactly-once redemption: a second redemption of a token, with the same or
   any other text, is refused and reports the date of the first one, which
   stays as it was.
   */
  method RedeemTwice(svc: TokenService, cripto: string, other: string, hash: string, t1: Timestamp, t2: Timestamp)
    returns (first: DecryptOutcome, second: DecryptOutcome)
    requires svc.Valid() && cripto != "" && other != "" && hash in svc.tokens && !svc.tokens[hash].usado
    modifies svc
    ensures first == Decrypted(cripto, Decipher(cripto, old(svc.tokens[hash].passo)), old(svc.tokens[hash].passo))
    ensures second == AlreadyUsed(Some(t1))
    ensures svc.tokens == old(svc.tokens)[hash := Consume(old(svc.tokens[hash]), t1)]
  {
    first := svc.Decrypt(Some(cripto), Some(hash), t1);
    second := svc.Decrypt(Some(other), Some(hash), t2);
  }

  /**
   The service's round trip: the ciphertext and token returned by an
   accepted `/criptografar` redeem to the original message.
   */
  method IssueThenRedeem(svc: TokenService, mensagem: string, passo: int, usuarioId: UserId, candidates: seq<string>, t1: Timestamp, t2: Timestamp)
    returns (issued: EncryptOutcome, redeemed: DecryptOutcome)
    requires svc.Valid() && Alphanumeric(mensagem)
    requires forall i :: 0 <= i < |candidates| ==> candidates[i] != ""
    requires exists i :: 0 <= i < |candidates| && candidates[i] !in svc.tokens
    modifies svc
    ensures issued.Encrypted? && issued.hash !in old(svc.tokens)
    ensures redeemed == Decrypted(issued.mensagemCifrada, mensagem, passo)
  {
    issued := svc.Encrypt(Some(mensagem), Parsed(passo), usuarioId, candidates, t1);
    DecipherEncipher(mensagem, passo);
    redeemed := svc.Decrypt(Some(issued.mensagemCifrada), Some(issued.hash), t2);
  }

  /** Issuing twice, even the same message with the same shift, gives two different tokens. */
  method IssueTwice(svc: TokenService, mensagem: string, passo: int, usuarioId: UserId, gen1: seq<string>, gen2: seq<string>, t1: Timestamp, t2: Timestamp)
    returns (a: EncryptOutcome, b: EncryptOutcome)
    requires svc.Valid() && Alphanumeric(mensagem)
    requires forall i :: 0 <= i < |gen1| ==> gen1[i] != ""
    requires forall i :: 0 <= i < |gen2| ==> gen2[i] != ""
    requires exists i :: 0 <= i < |gen1| && gen1[i] !in svc.tokens
    requires exists i :: 0 <= i < |gen2| && gen2[i] !in svc.tokens && gen2[i] !in gen1
    modifies svc
    ensures a.Encrypted? && b.Encrypted? && a.hash != b.hash
    ensures a.mensagemCifrada == b.mensagemCifrada
  {
    a := svc.Encrypt(Some(mensagem), Parsed(passo), usuarioId, gen1, t1);
    b := svc.Encrypt(Some(mensagem), Parsed(passo), usuarioId, gen2, t2);
  }

  /**
   A used token survives any later traffic: after an `/criptografar` and a
   `/descriptografar` with arbitrary requests, a record that was already used
   is still there, unchanged, and a redemption of it is refused with its
   original date.
   */
  method UsedSurvives(svc: TokenService, used: string,
                      mensagem: Option<string>, passo: ShiftField, usuarioId: UserId, candidates: seq<string>, t1: Timestamp,
                      mensagemCripto: Option<string>, hash: Option<string>, t2: Timestamp,
                      cripto: string, t3: Timestamp)
    returns (again: DecryptOutcome)
    requires svc.Valid() && used in svc.tokens && svc.tokens[used].usado && cripto != ""
    requires forall i :: 0 <= i < |candidates| ==> candidates[i] != ""
    requires exists i :: 0 <= i < |candidates| && candidates[i] !in svc.tokens
    modifies svc
    ensures used in svc.tokens && svc.tokens[used] == old(svc.tokens[used])
    ensures again == AlreadyUsed(old(svc.tokens[used].usadoEm))
  {
    ghost var s0 := svc.tokens;
    var _ := svc.Encrypt(mensagem, passo, usuarioId, candidates, t1);
    ghost var s1 := svc.tokens;
    var _ := svc.Decrypt(mensagemCripto, hash, t2);
    EvolvesTransitive(s0, s1, svc.tokens);
    UsedIsFinal(s0, svc.tokens, used);
    again := svc.Decrypt(Some(cripto), Some(used), t3);
  }

}
