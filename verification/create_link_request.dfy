/**
 * The constraints on the create request (url, len) and what they guarantee
 * the service. Absent JSON fields are None.
 */
module CreateLinkRequest {
  import opened Wrappers
  import opened Repository
  import opened ShorterService

  datatype CreateLinkRequest = CreateLinkRequest(url: Option<string>, len: Option<int>)

  /** One failed constraint. */
  datatype Violation =
    | UrlBlank     // url absent, or only characters up to U+0020
    | UrlTooLong   // url longer than 128 characters
    | LenNull      // len absent
    | LenTooSmall  // len below 3
    | LenTooLarge  // len above 12

  const MIN_LEN: int := 3
  const MAX_LEN: int := 12

  /** A string whose trim is empty: every character is at most U+0020. */
  predicate IsBlank(s: string) {
    forall i :: 0 <= i < |s| ==> s[i] <= ' '
  }

  /** The constraints a request breaks; an absent value satisfies every constraint but the not-null ones. */
  function Violations(req: CreateLinkRequest): (vs: set<Violation>)
    ensures UrlBlank in vs <==> req.url.None? || IsBlank(req.url.value)
    ensures UrlTooLong in vs <==> req.url.Some? && |req.url.value| > MAX_URL_LENGTH
    ensures LenNull in vs <==> req.len.None?
    ensures LenTooSmall in vs <==> req.len.Some? && req.len.value < MIN_LEN
    ensures LenTooLarge in vs <==> req.len.Some? && req.len.value > MAX_LEN
  {
    (if req.url.None? || IsBlank(req.url.value) then {UrlBlank} else {})
    + (if req.url.Some? && |req.url.value| > MAX_URL_LENGTH then {UrlTooLong} else {})
    + (if req.len.None? then {LenNull} else {})
    + (if req.len.Some? && req.len.value < MIN_LEN then {LenTooSmall} else {})
    + (if req.len.Some? && req.len.value > MAX_LEN then {LenTooLarge} else {})
  }

  /** The request is accepted when it breaks no constraint. */
  predicate IsValid(req: CreateLinkRequest) {
    Violations(req) == {}
  }

  /** An accepted request has a non-blank url of at most 128 characters and a len from 3 to 12. */
  lemma ValidRequestBounds(req: CreateLinkRequest)
    ensures IsValid(req) <==>
      && req.url.Some? && !IsBlank(req.url.value) && |req.url.value| <= MAX_URL_LENGTH
      && req.len.Some? && MIN_LEN <= req.len.value <= MAX_LEN
  {
    var vs := Violations(req);
    if !IsValid(req) {
      var v :| v in vs;
    }
  }

  /**
   * Through an accepted request the service never reports an over-long URL or
   * a failed substring, and a newly stored key has exactly len characters.
   */
  lemma ValidRequestCreate(store: Store, req: CreateLinkRequest)
    requires IsValid(req)
    ensures var o := CreateShortLinkWithLen(store, req.url.value, req.len.value);
      && o.result != Err(LinkLengthOverflow)
      && o.result != Err(StringIndexOutOfBounds)
      && (o.store != store ==> |o.result.value.shortKey| == req.len.value)
  {
    ValidRequestBounds(req);
    var url, len := req.url.value, req.len.value;
    if LinkIsValid(url) && FindByOriginalUrl(store, url).Empty? {
      CreateFresh(store, url, len);
    }
  }
}
