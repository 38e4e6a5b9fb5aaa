/**
 * The redirect endpoint: count a click through the service, then answer with
 * a redirect to the stored URL, a scheme added when it has none.
 */
module PageController {
  import opened JavaLang
  import opened Repository
  import opened ShorterService

  const HTTP: string := "http://"
  const HTTPS: string := "https://"

  /** The answer of the redirect endpoint. */
  datatype Response =
    | Redirect(location: string)  // 302 with a Location header
    | NotFound                    // 404: no link for the key
    | BadRequest                  // 400: any other failure of the service

  datatype RedirectOutcome = RedirectOutcome(response: Response, store: Store)

  /** A URL with neither prefix, compared case-sensitively, gets "https://" in front. */
  function NormalizeScheme(url: string): (r: string)
    ensures StartsWith(r, HTTP) || StartsWith(r, HTTPS)
    ensures StartsWith(url, HTTP) || StartsWith(url, HTTPS) ==> r == url
    ensures !StartsWith(url, HTTP) && !StartsWith(url, HTTPS) ==> r == HTTPS + url
  {
    if !StartsWith(url, HTTP) && !StartsWith(url, HTTPS) then
      assert (HTTPS + url)[..|HTTPS|] == HTTPS;
      HTTPS + url
    else
      url
  }

  /** The URL is left alone exactly when it already has one of the two prefixes. */
  lemma NormalizeUnchangedIff(url: string)
    ensures NormalizeScheme(url) == url <==> StartsWith(url, HTTP) || StartsWith(url, HTTPS)
  {
    if NormalizeScheme(url) == url {
      assert StartsWith(NormalizeScheme(url), HTTP) || StartsWith(NormalizeScheme(url), HTTPS);
    }
  }

  /** Normalising twice gives what normalising once gives. */
  lemma NormalizeIdempotent(url: string)
    ensures NormalizeScheme(NormalizeScheme(url)) == NormalizeScheme(url)
  {
    NormalizeUnchangedIff(NormalizeScheme(url));
  }

  /** The prefix test is case-sensitive: an upper-case scheme is prefixed again. */
  lemma NormalizeIsCaseSensitive()
    ensures NormalizeScheme("HTTP://x") == "https://HTTP://x"
    ensures NormalizeScheme("example.com") == "https://example.com"
    ensures NormalizeScheme("https://example.com") == "https://example.com"
  {
    assert !StartsWith("HTTP://x", HTTP) by {
      assert "HTTP://x"[0] != HTTP[0];
    }
    assert !StartsWith("HTTP://x", HTTPS) by {
      assert "HTTP://x"[0] != HTTPS[0];
    }
    assert HTTPS + "HTTP://x" == "https://HTTP://x";
    assert !StartsWith("example.com", HTTP) by {
      assert "example.com"[0] != HTTP[0];
    }
    assert !StartsWith("example.com", HTTPS) by {
      assert "example.com"[0] != HTTPS[0];
    }
    assert StartsWith("https://example.com", HTTPS) by {
      assert "https://example.com"[..|HTTPS|] == HTTPS;
    }
  }

  /** redirect: the click is counted first; the normalised URL is the Location. */
  function RedirectTo(store: Store, shortKey: string): (o: RedirectOutcome)
    ensures o.response.NotFound? <==> !ExistsByShortKey(store, shortKey)
    ensures !o.response.Redirect? ==> o.store == store
    ensures o.response.Redirect? <==> FindByShortKey(store, shortKey).Found?
    ensures o.response.Redirect? ==>
      var f := FindByShortKey(store, shortKey);
      && o.response.location == NormalizeScheme(f.entity.originalUrl)
      && o.store == store[f.index := f.entity.(clickCount := f.entity.clickCount + 1)]
  {
    var counted := GetIncrementedOriginalLinkByShortKey(store, shortKey);
    match counted.result
    case Ok(link) => RedirectOutcome(Redirect(NormalizeScheme(link.originalUrl)), counted.store)
    case Err(LinkNotFound) => RedirectOutcome(NotFound, counted.store)
    case Err(_) => RedirectOutcome(BadRequest, counted.store)
  }
}
