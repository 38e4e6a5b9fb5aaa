/**
 * ShorterService: create a short link (validation, reuse of an existing link
 * for the same URL, key generation, save), look a link up, and look it up
 * counting a click. The store is threaded through: every operation takes the
 * rows before the call and returns the rows after it. Exceptions become
 * ServiceError values; a failing call leaves the store as it was.
 */
module ShorterService {
  import opened Wrappers
  import opened Base62
  import opened Entity
  import opened Repository
  import opened KeyGen

  datatype ServiceError =
    | LinkLengthOverflow      // the URL has more than 128 characters
    | LinkIsInvalid           // the URL has no '.' or at most 4 characters
    | LinkNotFound            // no row holds the short key
    | IncorrectResultSize     // a single-result finder matched several rows
    | StringIndexOutOfBounds  // substring(0, len) with a negative len

  const MAX_URL_LENGTH: nat := 128

  /** The result of an operation together with the store after it. */
  datatype Outcome = Outcome(result: Result<LinkDto, ServiceError>, store: Store)

  /**
   * linkIsValid: more than four characters and a '.' somewhere. The contract
   * states the substring reading of contains(".").
   */
  function LinkIsValid(url: string): (valid: bool)
    ensures valid <==> |url| > 4 && exists a, b :: url == a + "." + b
  {
    if '.' in url then
      var i :| 0 <= i < |url| && url[i] == '.';
      assert url == url[..i] + "." + url[i + 1..];
      |url| > 4
    else
      assert forall a: string, b: string :: (a + "." + b)[|a|] == '.';
      false
  }

  /** createShortLinkWithLen. */
  function CreateShortLinkWithLen(store: Store, url: string, len: int): (o: Outcome)
    ensures |url| > MAX_URL_LENGTH ==> o == Outcome(Err(LinkLengthOverflow), store)
    ensures o.result == Err(LinkLengthOverflow) <==> |url| > MAX_URL_LENGTH
    ensures o.result == Err(LinkIsInvalid) <==> |url| <= MAX_URL_LENGTH && !LinkIsValid(url)
    ensures |url| <= MAX_URL_LENGTH && ('.' !in url || |url| <= 4) ==> o == Outcome(Err(LinkIsInvalid), store)
    ensures o.result.Err? ==> o.store == store
    ensures o.result.Ok? ==> o.result.value.originalUrl == url
    ensures o.store != store ==>
      && o.result.Ok?
      && FindByOriginalUrl(store, url).Empty?
      && o.store == store + [LinkEntity(o.result.value.shortKey, url, 0)]
      && o.result.value.clickCount == 0
  {
    if |url| > MAX_URL_LENGTH then
      Outcome(Err(LinkLengthOverflow), store)
    else if !LinkIsValid(url) then
      Outcome(Err(LinkIsInvalid), store)
    else
      match FindByOriginalUrl(store, url)
      case Found(_, existing) =>
        Outcome(Ok(ToDto(existing)), store)
      case NonUnique =>
        Outcome(Err(IncorrectResultSize), store)
      case Empty =>
        var checked := CheckedKey(store, url, len);
        if !(0 <= len <= |checked|) then
          Outcome(Err(StringIndexOutOfBounds), store)
        else
          var e := NewLinkEntity(checked[..len], url);
          Outcome(Ok(ToDto(e)), SaveNew(store, e))
  }

  /** getOriginalLinkByShortKey: read-only, so it returns no store. */
  function GetOriginalLinkByShortKey(store: Store, shortKey: string): (r: Result<LinkDto, ServiceError>)
    ensures r == Err(LinkNotFound) <==> !ExistsByShortKey(store, shortKey)
    ensures r.Ok? <==> FindByShortKey(store, shortKey).Found?
    ensures r.Ok? ==> r.value == ToDto(FindByShortKey(store, shortKey).entity) && r.value.shortKey == shortKey
  {
    match FindByShortKey(store, shortKey)
    case Empty => Err(LinkNotFound)
    case NonUnique => Err(IncorrectResultSize)
    case Found(_, e) => Ok(ToDto(e))
  }

  /** getIncrementedOriginalLinkByShortKey: one more click on the row holding the key. */
  function GetIncrementedOriginalLinkByShortKey(store: Store, shortKey: string): (o: Outcome)
    ensures o.result == Err(LinkNotFound) <==> !ExistsByShortKey(store, shortKey)
    ensures o.result.Err? ==> o.store == store
    ensures o.result.Ok? <==> FindByShortKey(store, shortKey).Found?
    ensures o.result.Ok? ==>
      var f := FindByShortKey(store, shortKey);
      && o.store == store[f.index := f.entity.(clickCount := f.entity.clickCount + 1)]
      && o.result.value == LinkDto(shortKey, f.entity.originalUrl, f.entity.clickCount + 1)
  {
    match FindByShortKey(store, shortKey)
    case Empty => Outcome(Err(LinkNotFound), store)
    case NonUnique => Outcome(Err(IncorrectResultSize), store)
    case Found(i, e) =>
      var updated := SetClickCount(e, e.clickCount + 1);
      Outcome(Ok(ToDto(updated)), SaveAt(store, i, updated))
  }

  /** Re-submitting a URL that has a row returns that row's fields, for any len, and saves nothing. */
  lemma CreateReusesExisting(store: Store, url: string, len: int, i: nat)
    requires LinkIsValid(url) && |url| <= MAX_URL_LENGTH
    requires i < |store| && store[i].originalUrl == url
    requires forall j :: 0 <= j < |store| && j != i ==> store[j].originalUrl != url
    ensures CreateShortLinkWithLen(store, url, len) == Outcome(Ok(ToDto(store[i])), store)
  {
    assert FindByOriginalUrl(store, url).Found?;
  }

  /**
   * A fresh create stores exactly one new row: the given URL, a key of exactly
   * len characters from ALPHABET cut from the checked key of the stopping
   * attempt, and a click count of zero; it returns those three values.
   */
  lemma CreateFresh(store: Store, url: string, len: int)
    requires LinkIsValid(url) && |url| <= MAX_URL_LENGTH
    requires forall i :: 0 <= i < |store| ==> store[i].originalUrl != url
    requires 0 <= len
    ensures var o := CreateShortLinkWithLen(store, url, len);
      var k := StoppingAttempt(store, url, len);
      && o.result == Ok(LinkDto(Candidate(url, k, len)[..len], url, 0))
      && o.store == store + [LinkEntity(Candidate(url, k, len)[..len], url, 0)]
      && |o.result.value.shortKey| == len
      && AllInAlphabet(o.result.value.shortKey)
  {
    assert FindByOriginalUrl(store, url).Empty?;
    var k := StoppingAttempt(store, url, len);
    var checked := Candidate(url, k, len);
    assert CheckedKey(store, url, len) == checked;
    TruncatedCandidateShape(url, k, len);
    assert 0 <= len <= |checked|;
  }

  /** A negative len fails at substring after the probes, and nothing is saved. */
  lemma CreateNegativeLenFails(store: Store, url: string, len: int)
    requires LinkIsValid(url) && |url| <= MAX_URL_LENGTH
    requires forall i :: 0 <= i < |store| ==> store[i].originalUrl != url
    requires len < 0
    ensures CreateShortLinkWithLen(store, url, len) == Outcome(Err(StringIndexOutOfBounds), store)
  {
  }

  /** Creating the same URL twice, with any lengths, returns the same link and saves nothing the second time. */
  lemma CreateIdempotent(store: Store, url: string, len1: int, len2: int)
    requires LinkIsValid(url) && |url| <= MAX_URL_LENGTH && 0 <= len1
    requires !FindByOriginalUrl(store, url).NonUnique?
    ensures var o1 := CreateShortLinkWithLen(store, url, len1);
      && o1.result.Ok?
      && CreateShortLinkWithLen(o1.store, url, len2) == Outcome(o1.result, o1.store)
  {
    var o1 := CreateShortLinkWithLen(store, url, len1);
    if o1.store != store {
      var e := LinkEntity(o1.result.value.shortKey, url, 0);
      FindByUrlAfterSave(store, e);
    }
  }

  /** Sequential creates never put a second row for a URL. */
  lemma CreatePreservesUniqueUrls(store: Store, url: string, len: int)
    requires UniqueUrls(store)
    ensures UniqueUrls(CreateShortLinkWithLen(store, url, len).store)
  {
    var o := CreateShortLinkWithLen(store, url, len);
    if o.store != store {
      SaveNewKeepsUniqueUrls(store, LinkEntity(o.result.value.shortKey, url, 0));
    }
  }

  /** On a store with one row per URL, a create with len >= 0 that passes validation succeeds. */
  lemma CreateSucceedsOnConsistentStore(store: Store, url: string, len: int)
    requires UniqueUrls(store)
    requires LinkIsValid(url) && |url| <= MAX_URL_LENGTH
    requires 0 <= len
    ensures CreateShortLinkWithLen(store, url, len).result.Ok?
  {
    var f := FindByOriginalUrl(store, url);
    assert !f.NonUnique?;
    if f.Empty? {
      CandidateShape(url, StoppingAttempt(store, url, len), len);
      assert len <= |CheckedKey(store, url, len)|;
    }
  }

  /**
   * For len of 6 or more the stored key is the key the loop checked: unless all
   * ten attempts collided, it is held by no existing row.
   */
  lemma CreateStoresCheckedKeyWhenLong(store: Store, url: string, len: int)
    requires LinkIsValid(url) && |url| <= MAX_URL_LENGTH
    requires forall i :: 0 <= i < |store| ==> store[i].originalUrl != url
    requires 6 <= len
    ensures var o := CreateShortLinkWithLen(store, url, len);
      && o.result.Ok?
      && o.result.value.shortKey == CheckedKey(store, url, len)
      && (StoppingAttempt(store, url, len) < MAX_ATTEMPTS - 1 ==> !ExistsByShortKey(store, o.result.value.shortKey))
  {
    var k := StoppingAttempt(store, url, len);
    CandidateIsTruncatedCandidateWhenLong(url, k, len);
    CreateFresh(store, url, len);
    assert CandidateFamily(url, len)(k) == CheckedKey(store, url, len);
  }

  /**
   * When all ten candidates are taken the last one is stored anyway, and for
   * len of 6 or more that key is then held by two rows.
   */
  lemma CreateAfterTenCollisionsDuplicatesKey(store: Store, url: string, len: int)
    requires LinkIsValid(url) && |url| <= MAX_URL_LENGTH
    requires forall i :: 0 <= i < |store| ==> store[i].originalUrl != url
    requires 6 <= len
    requires forall j :: 0 <= j < MAX_ATTEMPTS ==> ExistsByShortKey(store, Candidate(url, j, len))
    ensures var o := CreateShortLinkWithLen(store, url, len);
      && o.result == Ok(LinkDto(Candidate(url, MAX_ATTEMPTS - 1, len), url, 0))
      && !UniqueKeys(o.store)
  {
    var k := StoppingAttempt(store, url, len);
    assert k == MAX_ATTEMPTS - 1;
    CandidateIsTruncatedCandidateWhenLong(url, k, len);
    CreateFresh(store, url, len);
    var key := Candidate(url, k, len);
    var o := CreateShortLinkWithLen(store, url, len);
    assert o.store == store + [LinkEntity(key, url, 0)];
    assert ExistsByShortKey(store, key) by {
      assert key == CandidateFamily(url, len)(MAX_ATTEMPTS - 1);
    }
    var i :| 0 <= i < |store| && store[i].shortKey == key;
    assert o.store[i].shortKey == key && o.store[|store|].shortKey == key;
  }

  /**
   * For len shorter than the encoding, the stored key is a prefix that was
   * never checked: a row already holding that prefix gets a twin.
   */
  lemma CreateShortLenMayDuplicateKey(url: string, other: string, len: int)
    requires LinkIsValid(url) && |url| <= MAX_URL_LENGTH
    requires other != url
    requires 0 <= len < |EncodeAlphabetBase(AttemptHash(url, 0))|
    ensures var store := [LinkEntity(Candidate(url, 0, len)[..len], other, 0)];
      var o := CreateShortLinkWithLen(store, url, len);
      && o.result == Ok(LinkDto(store[0].shortKey, url, 0))
      && !UniqueKeys(o.store)
  {
    var store := [LinkEntity(Candidate(url, 0, len)[..len], other, 0)];
    TruncationDropsCheckedCharacters(url, 0, len);
    assert !ExistsByShortKey(store, CandidateFamily(url, len)(0));
    assert StoppingAttempt(store, url, len) == 0;
  }

  /** A click adds one to the row holding the key and changes nothing else. */
  lemma IncrementAddsOne(store: Store, shortKey: string, i: nat, e: LinkEntity)
    requires FindByShortKey(store, shortKey) == Found(i, e)
    ensures var o := GetIncrementedOriginalLinkByShortKey(store, shortKey);
      && o.result == Ok(LinkDto(e.shortKey, e.originalUrl, e.clickCount + 1))
      && FindByShortKey(o.store, shortKey) == Found(i, e.(clickCount := e.clickCount + 1))
      && |o.store| == |store|
      && (forall j :: 0 <= j < |store| && j != i ==> o.store[j] == store[j])
  {
    var o := GetIncrementedOriginalLinkByShortKey(store, shortKey);
    assert forall j :: 0 <= j < |store| ==> o.store[j].shortKey == store[j].shortKey;
  }

  /** Clicks never lower a count, and keys and URLs stay where they were. */
  lemma IncrementMonotone(store: Store, shortKey: string)
    ensures var s := GetIncrementedOriginalLinkByShortKey(store, shortKey).store;
      && |s| == |store|
      && forall j :: 0 <= j < |store| ==>
        && s[j].shortKey == store[j].shortKey
        && s[j].originalUrl == store[j].originalUrl
        && store[j].clickCount <= s[j].clickCount
  {
  }

  /** A lookup never changes a count. */
  lemma GetAfterIncrement(store: Store, shortKey: string, i: nat, e: LinkEntity)
    requires FindByShortKey(store, shortKey) == Found(i, e)
    ensures var o := GetIncrementedOriginalLinkByShortKey(store, shortKey);
      GetOriginalLinkByShortKey(o.store, shortKey) == o.result
  {
    IncrementAddsOne(store, shortKey, i, e);
  }

  /** The store after n sequential clicks on a key. */
  function ClickTimes(store: Store, shortKey: string, n: nat): Store
    decreases n
  {
    if n == 0 then store else ClickTimes(GetIncrementedOriginalLinkByShortKey(store, shortKey).store, shortKey, n - 1)
  }

  /** n sequential clicks raise the count by exactly n. */
  lemma {:induction false} ClickTimesCounts(store: Store, shortKey: string, n: nat, i: nat, e: LinkEntity)
    requires FindByShortKey(store, shortKey) == Found(i, e)
    ensures FindByShortKey(ClickTimes(store, shortKey, n), shortKey) == Found(i, e.(clickCount := e.clickCount + n))
    decreases n
  {
    if n > 0 {
      var next := GetIncrementedOriginalLinkByShortKey(store, shortKey).store;
      var e' := e.(clickCount := e.clickCount + 1);
      IncrementAddsOne(store, shortKey, i, e);
      ClickTimesCounts(next, shortKey, n - 1, i, e');
    }
  }

  /**
   * A row saved by a fresh create, under a key no other row holds, reads back
   * with count 0, and two clicks on it answer 1 and then 2.
   */
  lemma TwoClicksOnFreshLink(store: Store, key: string, url: string)
    requires !ExistsByShortKey(store, key)
    ensures var created := SaveNew(store, NewLinkEntity(key, url));
      var first := GetIncrementedOriginalLinkByShortKey(created, key);
      var second := GetIncrementedOriginalLinkByShortKey(first.store, key);
      && GetOriginalLinkByShortKey(created, key) == Ok(LinkDto(key, url, 0))
      && first.result == Ok(LinkDto(key, url, 1))
      && second.result == Ok(LinkDto(key, url, 2))
  {
    var e := NewLinkEntity(key, url);
    FindAfterSave(store, e);
    IncrementAddsOne(SaveNew(store, e), key, |store|, e);
    var first := GetIncrementedOriginalLinkByShortKey(SaveNew(store, e), key);
    IncrementAddsOne(first.store, key, |store|, e.(clickCount := 1));
  }

  /** Clicks keep one row per URL. */
  lemma IncrementPreservesUniqueUrls(store: Store, shortKey: string)
    requires UniqueUrls(store)
    ensures UniqueUrls(GetIncrementedOriginalLinkByShortKey(store, shortKey).store)
  {
    var f := FindByShortKey(store, shortKey);
    if f.Found? {
      SaveAtKeepsUniqueUrls(store, f.index, f.entity.(clickCount := f.entity.clickCount + 1));
    }
  }
}
