/**
 What the credential store accepts, admits and lists (src/pass_store.cpp), said in plain numbers: the texts and
 windows of acceptable credentials, who is let in, and what a listing shows.
 */
module CredRules {
  import opened Basics
  import opened Timeout
  import opened CredTypes
  import opened CredChain
  import opened CredRecovery
  import opened CredCrash
  import opened CredCache

  // ---------- what is accepted ----------

  predicate IsPin(s: string) {
    6 <= |s| <= 8 && forall i :: 0 <= i < |s| ==> '0' <= s[i] <= '9'
  }

  predicate IsPrintable(s: string) {
    forall i :: 0 <= i < |s| ==> 33 <= s[i] as int <= 126
  }

  predicate InWindow(c: CacheRecord, now: int) {
    (c.validFrom == 0 || c.validFrom <= now) && (c.validTo == 0 || now <= c.validTo)
  }

  // A PIN of 6 to 8 digits or a packet number of 8 to 20 printable characters, a name of 1 to 10 characters, and a
  // window that some instant lies in.
  ghost predicate Acceptable(c: CacheRecord) {
    && (|| (c.credType == Password && IsPin(c.credential))
        || (c.credType == PacketNumber && 8 <= |c.credential| <= 20 && IsPrintable(c.credential)))
    && 1 <= |c.name| <= 10
    && exists now: nat :: InWindow(c, now)
  }

  lemma AcceptableIffValid(c: CacheRecord)
    ensures ValidateCred(c) <==> Acceptable(c)
  {
    if c.validTo == 0 || c.validFrom <= c.validTo {
      assert InWindow(c, if c.validFrom == 0 then c.validTo else c.validFrom);
    }
  }

  // Recovery keeps exactly the records that hold an acceptable credential under a real id.
  lemma StoredIsValidIff(r: CredRecord)
    ensures IsStoredCredValid(r) <==>
            && r.credId != 0 && r.credId != 0xFFFF_FFFF
            && Acceptable(CacheRecord(r.credType, r.credId, r.name, r.credential,
                                      r.doorNum, r.validFrom, r.validTo, r.remaining))
  {
    var c := CacheRecord(r.credType, r.credId, r.name, r.credential, r.doorNum, r.validFrom, r.validTo, r.remaining);
    AcceptableIffValid(c);
    if ValidateCredential(r.credential, r.credType, 0) && |r.name| <= 10 {
      assert ToCacheRecord(r) == c;
    }
  }

  // The same credential: id, type, name and text.
  predicate IsSame(c: CacheRecord, d: CacheRecord) {
    c.credId == d.credId && c.credType == d.credType && c.name == d.name && c.credential == d.credential
  }

  ghost predicate IsStoredAt(p: Pool, c: CacheRecord, d: nat) {
    d < |p.creds| && IsSame(p.creds[d], c)
  }

  // An add returns an id if and only if the credential is acceptable. Then it is stored last, under the next id, with
  // nothing else changed; otherwise nothing changes at all.
  lemma AddAccepts(st: Store, p: Pool, c: CacheRecord)
    requires Refines(st, p) && p.nextId < LAST_KEY
    ensures var (st', id) := AddCred(st, c);
            && (id != 0 <==> Acceptable(c))
            && (if Acceptable(c)
                then id == p.nextId && Refines(st', Pool(p.creds + [c.(credId := p.nextId)], p.nextId + 1))
                     && st'.cache == st.cache + [c.(credId := p.nextId)]
                else st' == st)
  {
    AcceptableIffValid(c);
    AddRefines(st, p, c);
  }

  // No other credential leaves the cache, and the verified id stays.
  ghost predicate KeepsOthers(st: Store, st': Store, id: uint32) {
    (forall d :: d in st.cache && d.credId != id ==> d in st'.cache) && st'.verified == st.verified
  }

  lemma UpsertKeepsOthers(cache: seq<CacheRecord>, c: CacheRecord)
    ensures c in Upsert(cache, c) && forall d :: d in cache && d.credId != c.credId ==> d in Upsert(cache, c)
  {
    var i := IndexOf(cache, c.credId);
    if i < |cache| { assert Upsert(cache, c)[i] == c; } else { assert Upsert(cache, c)[i] == c; }
    forall d | d in cache && d.credId != c.credId ensures d in Upsert(cache, c) {
      var k :| 0 <= k < |cache| && cache[k] == d;
      assert Upsert(cache, c)[k] == d;
    }
  }

  lemma EvictKeepsOthers(cache: seq<CacheRecord>, id: uint32)
    ensures forall d :: d in cache && d.credId != id ==> d in Evict(cache, id)
  {
    var i := IndexOf(cache, id);
    forall d | d in cache && d.credId != id ensures d in Evict(cache, id) {
      var k :| 0 <= k < |cache| && cache[k] == d;
      if i < |cache| { assert Evict(cache, id)[if k < i then k else k - 1] == d; }
    }
  }

  // An update succeeds if and only if the credential is acceptable and stored. Then exactly that record is replaced;
  // otherwise nothing changes.
  lemma UpdateAccepts(st: Store, p: Pool, c: CacheRecord)
    requires Refines(st, p)
    ensures UpdateCred(st, c).1 <==> Acceptable(c) && exists d: nat :: IsStoredAt(p, c, d)
    ensures !UpdateCred(st, c).1 ==> UpdateCred(st, c).0 == st
    ensures forall d: nat :: Acceptable(c) && IsStoredAt(p, c, d) ==>
              Refines(UpdateCred(st, c).0, p.(creds := p.creds[d := c]))
  {
    AcceptableIffValid(c);
    UpdateRefines(st, p, c);
    if ValidateCred(c) { UpdateWritesOnPool(st.nvs, p, c); }
    StoredIsMatched(p, c);
  }

  lemma StoredIsMatched(p: Pool, c: CacheRecord)
    requires Ordered(p)
    ensures HasMatch(p, c) <==> exists d: nat :: IsStoredAt(p, c, d)
    ensures forall d: nat :: IsStoredAt(p, c, d) ==> HasMatch(p, c) && d == MatchIndex(p, c) && c.credId != 0
  {
    if HasMatch(p, c) { assert IsStoredAt(p, c, MatchIndex(p, c)); }
    forall d: nat | IsStoredAt(p, c, d) ensures HasMatch(p, c) && d == MatchIndex(p, c) && c.credId != 0 {
      assert Matches(p, d, c);
    }
  }

  // A removal returns the id if and only if the credential is stored. Then exactly that record is gone; otherwise
  // nothing changes.
  lemma RemoveAccepts(st: Store, p: Pool, c: CacheRecord)
    requires Refines(st, p)
    ensures RemoveCred(st, c).1 != 0 <==> exists d: nat :: IsStoredAt(p, c, d)
    ensures RemoveCred(st, c).1 == 0 ==> RemoveCred(st, c).0 == st
    ensures forall d: nat :: IsStoredAt(p, c, d) ==>
              && RemoveCred(st, c).1 == c.credId
              && Refines(RemoveCred(st, c).0, Pool(p.creds[..d] + p.creds[d + 1..], p.nextId))
  {
    StoredIsMatched(p, c);
    RemoveRefines(st, p, c);
    assert !HasMatch(p, c) ==> RemoveCred(st, c).0 == st by { RemoveWritesOnPool(st.nvs, p, c); }
  }

  // A successful update is cached; neither an update nor a removal drops another credential from the cache.
  lemma OthersStayCached(st: Store, c: CacheRecord)
    ensures KeepsOthers(st, UpdateCred(st, c).0, c.credId) && KeepsOthers(st, RemoveCred(st, c).0, c.credId)
    ensures UpdateCred(st, c).1 ==> c in UpdateCred(st, c).0.cache
  {
    UpsertKeepsOthers(st.cache, c);
    EvictKeepsOthers(st.cache, c.credId);
  }

  // ---------- using a credential ----------

  lemma UseFinds(st: Store, p: Pool, c: CacheRecord)
    requires Refines(st, p) && c in st.cache
    ensures var i := IndexOfUse(st.cache, c.credId, c.doorNum); i < |st.cache| && st.cache[i] == c
    ensures c.credId != 0 && ValidateCred(c) && exists d: nat :: IsStoredAt(p, c, d)
  {
    var k :| 0 <= k < |st.cache| && st.cache[k] == c;
    var d :| 0 <= d < |p.creds| && p.creds[d] == c;
    assert IsStoredAt(p, c, d);
  }

  // Using a verified credential for its door takes one of several uses...
  lemma UseOfMany(st: Store, p: Pool, c: CacheRecord, now: nat)
    requires Refines(st, p) && c in st.cache && c.credId == st.verified && Usable(c, now) && c.remaining > 1
    ensures var st' := UsedCred(st, c.doorNum, now).0;
            && st'.verified == 0 && c.(remaining := c.remaining - 1) in st'.cache
            && (forall d :: d in st.cache && d.credId != c.credId ==> d in st'.cache)
  {
    var c' := c.(remaining := c.remaining - 1);
    UseFinds(st, p, c);
    var d: nat :| IsStoredAt(p, c, d);
    assert IsStoredAt(p, c', d);
    AcceptableIffValid(c');
    assert UpdateCred(st, c').1 by { UpdateAccepts(st, p, c'); }
    UsedIsUpdated(st, c, c', now);
    OthersStayCached(st, c');
  }

  lemma UsedIsUpdated(st: Store, c: CacheRecord, c': CacheRecord, now: nat)
    requires var i := IndexOfUse(st.cache, c.credId, c.doorNum); i < |st.cache| && st.cache[i] == c
    requires c.credId == st.verified != 0 && Usable(c, now) && c.remaining > 1
    requires c' == c.(remaining := c.remaining - 1) && UpdateCred(st, c').1
    ensures UsedCred(st, c.doorNum, now).0 == UpdateCred(st, c').0.(verified := 0)
  {
  }

  // ... removes it with its last use...
  lemma UseOfLast(st: Store, p: Pool, c: CacheRecord, now: nat)
    requires Refines(st, p) && c in st.cache && c.credId == st.verified && Usable(c, now) && c.remaining == 1
    ensures var st' := UsedCred(st, c.doorNum, now).0;
            && st'.verified == 0 && (forall d :: d in st'.cache ==> d.credId != c.credId)
            && (forall d :: d in st.cache && d.credId != c.credId ==> d in st'.cache)
  {
    UseFinds(st, p, c);
    RemoveAccepts(st, p, c);
    OthersStayCached(st, c);
    EvictDistinct(st.cache, c.credId);
    assert RemoveCred(st, c).0.cache == Evict(st.cache, c.credId);
  }

  // ... and changes nothing for an unlimited or unusable one.
  lemma UseOfOther(st: Store, p: Pool, c: CacheRecord, now: nat)
    requires Refines(st, p) && c in st.cache && c.credId == st.verified && (!Usable(c, now) || c.remaining < 0)
    ensures UsedCred(st, c.doorNum, now).0 == st.(verified := 0)
  {
    UseFinds(st, p, c);
  }

  // ---------- who is let in ----------

  // Some use left, or unlimited, and inside the window.
  predicate Usable(c: CacheRecord, now: nat) {
    c.remaining != 0 && InWindow(c, now)
  }

  // What can be entered: a PIN, or 8 to 64 scanned printable characters.
  predicate IsReadable(entered: string, t: CredType) {
    if t == Password then IsPin(entered) else t == PacketNumber && 8 <= |entered| <= 64 && IsPrintable(entered)
  }

  predicate AppearsAt(part: string, whole: string, i: nat) {
    i + |part| <= |whole| && whole[i..i + |part|] == part
  }

  // The PIN is entered in full; a packet number appears somewhere in what is scanned.
  ghost predicate Answers(c: CacheRecord, entered: string, t: CredType) {
    && c.credType == t
    && if t == Password then entered == c.credential else exists i: nat :: AppearsAt(c.credential, entered, i)
  }

  lemma AnswersIffMatches(c: CacheRecord, entered: string, t: CredType)
    ensures TextMatches(c, entered, t) <==> Answers(c, entered, t)
  {
    if i: nat :| AppearsAt(c.credential, entered, i) { assert OccursAt(entered, c.credential, i); }
    if i :| 0 <= i <= |entered| && OccursAt(entered, c.credential, i) { assert AppearsAt(c.credential, entered, i); }
  }

  // Credential k is the first that answers what was entered and may be used now.
  ghost predicate IsFirstToAnswer(p: Pool, k: nat, entered: string, t: CredType, now: nat) {
    && k < |p.creds| && Answers(p.creds[k], entered, t) && Usable(p.creds[k], now)
    && forall j :: 0 <= j < k ==> !(Answers(p.creds[j], entered, t) && Usable(p.creds[j], now))
  }

  lemma FirstToAnswerIs(p: Pool, k: nat, entered: string, t: CredType, now: nat)
    ensures IsFirstToAnswer(p, k, entered, t, now) <==> k < |p.creds| && k == FirstGrant(p.creds, entered, t, now)
  {
    forall j | 0 <= j < |p.creds|
      ensures TextMatches(p.creds[j], entered, t) <==> Answers(p.creds[j], entered, t)
      ensures IsActive(p.creds[j], now) <==> Usable(p.creds[j], now)
    {
      AnswersIffMatches(p.creds[j], entered, t);
    }
  }

  // Right after a rebuild at the same instant, readable text opens the door of the first credential that answers it and
  // may be used now...
  lemma AdmitsFirst(st: Store, p: Pool, entered: string, t: CredType, now: nat, k: nat)
    requires Refines(st, p) && IsReadable(entered, t) && IsFirstToAnswer(p, k, entered, t, now)
    ensures Walkable(st.nvs)
    ensures var (st', door) := VerifyCred(RebuildCache(st, now), entered, t, now);
            st'.verified == p.creds[k].credId && door == p.creds[k].doorNum
  {
    FirstToAnswerIs(p, k, entered, t, now);
    VerifyAfterRebuild(st, p, entered, t, now);
  }

  // ... and without one, or with other text, nobody is let in.
  lemma AdmitsNobody(st: Store, p: Pool, entered: string, t: CredType, now: nat)
    requires Refines(st, p)
    requires !IsReadable(entered, t) || (forall k: nat :: !IsFirstToAnswer(p, k, entered, t, now))
    ensures Walkable(st.nvs)
    ensures var (st', door) := VerifyCred(RebuildCache(st, now), entered, t, now); st'.verified == 0 && door == 255
  {
    RebuildOnPool(st, p, now);
    if IsReadable(entered, t) {
      FirstToAnswerIs(p, FirstGrant(p.creds, entered, t, now), entered, t, now);
      VerifyAfterRebuild(st, p, entered, t, now);
    }
  }

  // If only one stored credential answers the text, it is let in if and only if it has a use left, or is unlimited, and
  // the instant lies in its window.
  lemma OnlyAnswerIsAdmittedIff(st: Store, p: Pool, c: CacheRecord, entered: string, t: CredType, now: nat)
    requires Refines(st, p) && c in p.creds && IsReadable(entered, t)
    requires forall d :: d in p.creds ==> (Answers(d, entered, t) <==> d == c)
    ensures Walkable(st.nvs)
    ensures var (st', door) := VerifyCred(RebuildCache(st, now), entered, t, now);
            && (st'.verified == c.credId <==>
                  c.remaining != 0 && (c.validFrom == 0 || c.validFrom <= now) && (c.validTo == 0 || now <= c.validTo))
            && (if Usable(c, now) then door == c.doorNum else st'.verified == 0 && door == 255)
  {
    var k :| 0 <= k < |p.creds| && p.creds[k] == c;
    assert forall j :: 0 <= j < |p.creds| && j != k ==> p.creds[j] != c;
    if Usable(c, now) {
      AdmitsFirst(st, p, entered, t, now, k);
    } else {
      AdmitsNobody(st, p, entered, t, now);
    }
  }

  // ---------- what is listed ----------

  // A listing shows exactly the cached credentials that may be used now, have at least the start id, and are of the
  // type asked for; a page is its front part.
  lemma ListsExactly(cache: seq<CacheRecord>, first: uint32, num: uint32, t: CredType, now: nat, c: CacheRecord)
    ensures c in Selected(cache, first, t, now) <==>
            c in cache && Usable(c, now) && c.credId >= first && (t == All || c.credType == t)
    ensures GetCreds(cache, first, num, t, now) <= Selected(cache, first, t, now)
    ensures |GetCreds(cache, first, num, t, now)| ==
            if |Selected(cache, first, t, now)| <= num then |Selected(cache, first, t, now)| else num
  {
    SelectedMembers(cache, first, t, now, c);
  }
}
