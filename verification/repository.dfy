/**
 * ShorterRepository as an in-memory table: a sequence of rows in insertion
 * order with the three derived queries and save. A derived single-result
 * finder fails when more than one row matches, which the model reports as
 * NonUnique.
 */
module Repository {
  import opened Entity

  type Store = seq<LinkEntity>

  /** The two columns the derived queries filter on. */
  datatype Column = ShortKeyColumn | OriginalUrlColumn

  function ColumnValue(e: LinkEntity, column: Column): string {
    match column
    case ShortKeyColumn => e.shortKey
    case OriginalUrlColumn => e.originalUrl
  }

  /** The outcome of a single-result finder. */
  datatype Lookup = Empty | Found(index: nat, entity: LinkEntity) | NonUnique

  /** Positions of the rows whose column holds value, in increasing order. */
  function MatchingRows(store: Store, column: Column, value: string): (rows: seq<nat>)
    ensures forall i :: i in rows ==> 0 <= i < |store| && ColumnValue(store[i], column) == value
    ensures forall i :: 0 <= i < |store| && ColumnValue(store[i], column) == value ==> i in rows
    ensures forall j, k :: 0 <= j < k < |rows| ==> rows[j] < rows[k]
  {
    if |store| == 0 then
      []
    else
      var earlier := MatchingRows(store[..|store| - 1], column, value);
      if ColumnValue(store[|store| - 1], column) == value then
        assert forall j :: 0 <= j < |earlier| ==> earlier[j] in earlier;
        earlier + [|store| - 1]
      else
        earlier
  }

  /** The single-result finder on a column: empty, the one matching row, or a failure when several match. */
  function FindBy(store: Store, column: Column, value: string): (r: Lookup)
    ensures r.Empty? <==> forall i :: 0 <= i < |store| ==> ColumnValue(store[i], column) != value
    ensures r.Found? ==> r.index < |store| && store[r.index] == r.entity && ColumnValue(r.entity, column) == value
    ensures r.Found? ==> forall i :: 0 <= i < |store| && i != r.index ==> ColumnValue(store[i], column) != value
    ensures r.NonUnique? <==>
      exists i, j :: 0 <= i < j < |store| && ColumnValue(store[i], column) == value && ColumnValue(store[j], column) == value
  {
    var rows := MatchingRows(store, column, value);
    if |rows| == 0 then
      Empty
    else if |rows| == 1 then
      assert rows[0] in rows;
      assert forall i :: 0 <= i < |store| && ColumnValue(store[i], column) == value ==> i == rows[0] by {
        forall i | 0 <= i < |store| && ColumnValue(store[i], column) == value
          ensures i == rows[0]
        {
          assert i in rows;
        }
      }
      Found(rows[0], store[rows[0]])
    else
      assert rows[0] in rows && rows[1] in rows;
      NonUnique
  }

  /** findByShortKey. */
  function FindByShortKey(store: Store, shortKey: string): Lookup {
    FindBy(store, ShortKeyColumn, shortKey)
  }

  /** findByOriginalUrl. */
  function FindByOriginalUrl(store: Store, originalUrl: string): Lookup {
    FindBy(store, OriginalUrlColumn, originalUrl)
  }

  /** existsByShortKey: true exactly when some row holds the key; several rows are no failure. */
  function ExistsByShortKey(store: Store, shortKey: string): (b: bool)
    ensures b <==> exists i :: 0 <= i < |store| && store[i].shortKey == shortKey
  {
    var rows := MatchingRows(store, ShortKeyColumn, shortKey);
    assert |rows| > 0 ==> rows[0] in rows;
    |rows| > 0
  }

  /** save of a new entity: it becomes the last row. */
  function SaveNew(store: Store, e: LinkEntity): (s: Store)
    ensures |s| == |store| + 1 && s[..|store|] == store && s[|store|] == e
  {
    store + [e]
  }

  /** save of an entity read from row index: the row is overwritten. */
  function SaveAt(store: Store, index: nat, e: LinkEntity): (s: Store)
    requires index < |store|
    ensures |s| == |store| && s[index] == e
    ensures forall i :: 0 <= i < |store| && i != index ==> s[i] == store[i]
  {
    store[index := e]
  }

  /** existsByShortKey and findByShortKey agree on whether a key is present. */
  lemma ExistsIffFindNotEmpty(store: Store, shortKey: string)
    ensures ExistsByShortKey(store, shortKey) <==> !FindByShortKey(store, shortKey).Empty?
  {
  }

  /** The id of a row found by key is the key it was looked up by. */
  lemma FoundIdIsKey(store: Store, shortKey: string, i: nat, e: LinkEntity)
    requires FindByShortKey(store, shortKey) == Found(i, e)
    ensures GetId(e) == shortKey
    ensures i < |store| && GetId(store[i]) == shortKey
  {
  }

  /** A key no row holds is found by nobody. */
  lemma FindNeverSaved(store: Store, shortKey: string)
    requires forall i :: 0 <= i < |store| ==> store[i].shortKey != shortKey
    ensures FindByShortKey(store, shortKey) == Empty
    ensures !ExistsByShortKey(store, shortKey)
  {
  }

  /** After saving an entity whose key was absent, finding that key yields the saved entity. */
  lemma FindAfterSave(store: Store, e: LinkEntity)
    requires !ExistsByShortKey(store, e.shortKey)
    ensures FindByShortKey(SaveNew(store, e), e.shortKey) == Found(|store|, e)
    ensures ExistsByShortKey(SaveNew(store, e), e.shortKey)
  {
    var s := SaveNew(store, e);
    assert s[|store|].shortKey == e.shortKey;
    match FindByShortKey(s, e.shortKey)
    case Empty =>
      assert false;
    case NonUnique =>
      assert false;
    case Found(k, f) =>
      if k != |store| {
        assert false;
      }
  }

  /** The same for the URL column. */
  lemma FindByUrlAfterSave(store: Store, e: LinkEntity)
    requires FindByOriginalUrl(store, e.originalUrl).Empty?
    ensures FindByOriginalUrl(SaveNew(store, e), e.originalUrl) == Found(|store|, e)
  {
    var s := SaveNew(store, e);
    assert s[|store|].originalUrl == e.originalUrl;
    match FindByOriginalUrl(s, e.originalUrl)
    case Empty =>
      assert false;
    case NonUnique =>
      assert false;
    case Found(k, f) =>
      if k != |store| {
        assert false;
      }
  }

  /** Saving a second entity with a key already present makes the key finder fail. */
  lemma SaveDuplicateKey(store: Store, e: LinkEntity)
    requires ExistsByShortKey(store, e.shortKey)
    ensures FindByShortKey(SaveNew(store, e), e.shortKey) == NonUnique
  {
    var s := SaveNew(store, e);
    var i :| 0 <= i < |store| && store[i].shortKey == e.shortKey;
    assert s[i] == store[i] && s[|store|] == e;
  }

  /** No two rows hold the same URL: the state sequential creates keep. */
  predicate UniqueUrls(store: Store) {
    forall i, j :: 0 <= i < j < |store| ==> store[i].originalUrl != store[j].originalUrl
  }

  /** No two rows hold the same short key. */
  predicate UniqueKeys(store: Store) {
    forall i, j :: 0 <= i < j < |store| ==> store[i].shortKey != store[j].shortKey
  }

  /** Saving a row for a URL no row holds keeps one row per URL. */
  lemma SaveNewKeepsUniqueUrls(store: Store, e: LinkEntity)
    requires UniqueUrls(store)
    requires FindByOriginalUrl(store, e.originalUrl).Empty?
    ensures UniqueUrls(SaveNew(store, e))
  {
    var s := SaveNew(store, e);
    forall i, j | 0 <= i < j < |s|
      ensures s[i].originalUrl != s[j].originalUrl
    {
      assert s[i] == store[i];
    }
  }

  /** Overwriting a row without changing its URL keeps one row per URL. */
  lemma SaveAtKeepsUniqueUrls(store: Store, index: nat, e: LinkEntity)
    requires UniqueUrls(store)
    requires index < |store| && e.originalUrl == store[index].originalUrl
    ensures UniqueUrls(SaveAt(store, index, e))
  {
  }
}
