/**
 * The persisted link record and the three-field value the service hands back.
 * The generated numeric id is not modelled: a row is identified by its position
 * in the store.
 */
module Entity {

  /** A row of the links table. Neither column is declared unique. */
  datatype LinkEntity = LinkEntity(shortKey: string, originalUrl: string, clickCount: nat)

  /** The record returned to callers, field for field a copy of an entity. */
  datatype LinkDto = LinkDto(shortKey: string, originalUrl: string, clickCount: nat)

  /** The two-argument constructor: the click count starts at zero. */
  function NewLinkEntity(shortKey: string, originalUrl: string): (e: LinkEntity)
    ensures e.shortKey == shortKey && e.originalUrl == originalUrl
    ensures e.clickCount == 0
  {
    LinkEntity(shortKey, originalUrl, 0)
  }

  /** getId answers the short key, not the generated numeric id. */
  function GetId(e: LinkEntity): string
  {
    e.shortKey
  }

  function SetShortKey(e: LinkEntity, shortKey: string): (r: LinkEntity)
    ensures r.shortKey == shortKey
    ensures r.originalUrl == e.originalUrl && r.clickCount == e.clickCount
  {
    e.(shortKey := shortKey)
  }

  function SetOriginalUrl(e: LinkEntity, originalUrl: string): (r: LinkEntity)
    ensures r.originalUrl == originalUrl
    ensures r.shortKey == e.shortKey && r.clickCount == e.clickCount
  {
    e.(originalUrl := originalUrl)
  }

  function SetClickCount(e: LinkEntity, clickCount: nat): (r: LinkEntity)
    ensures r.clickCount == clickCount
    ensures r.shortKey == e.shortKey && r.originalUrl == e.originalUrl
  {
    e.(clickCount := clickCount)
  }

  /** The copy the service returns: the getters read straight through. */
  function ToDto(e: LinkEntity): LinkDto
  {
    LinkDto(e.shortKey, e.originalUrl, e.clickCount)
  }
}
