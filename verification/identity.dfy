/** The canonical identity of a listed car: its detail-page link without the query
    parameters the site appends after the first `&`. */
module Identity {
  import opened Text

  /** `__clean_car_url`: `url.split('&')[0]`. The result is the longest prefix of `url` without
      an `&`: either all of `url` or the text up to its first `&`. */
  function CleanUrl(url: string): (r: string)
    ensures |r| <= |url| && r == url[..|r|]
    ensures '&' !in r
    ensures |r| == |url| || url[|r|] == '&'
  {
    var parts := Split(url, '&');
    JoinStartsWithFirst(parts, '&');
    parts[0]
  }

  /** Any prefix that stops at the end or at an `&` and holds no `&` is the clean URL. */
  lemma CleanUrlUnique(url: string, r: string)
    requires |r| <= |url| && r == url[..|r|]
    requires '&' !in r
    requires |r| == |url| || url[|r|] == '&'
    ensures CleanUrl(url) == r
  {
  }

  /** A link without `&` is already canonical. */
  lemma CleanUrlKeepsPlainLink(url: string)
    requires '&' !in url
    ensures CleanUrl(url) == url
  {
    CleanUrlUnique(url, url);
  }

  /** Cleaning twice is cleaning once. */
  lemma CleanUrlIdempotent(url: string)
    ensures CleanUrl(CleanUrl(url)) == CleanUrl(url)
  {
    CleanUrlKeepsPlainLink(CleanUrl(url));
  }

  /** Whatever follows the first `&` does not matter: links that agree up to their first `&`
      have the same identity. */
  lemma CleanUrlDropsParameters(base: string, params1: string, params2: string)
    requires '&' !in base
    ensures CleanUrl(base + "&" + params1) == base
    ensures CleanUrl(base + "&" + params1) == CleanUrl(base + "&" + params2)
  {
    var u1 := base + "&" + params1;
    var u2 := base + "&" + params2;
    assert u1[..|base|] == base && u1[|base|] == '&';
    assert u2[..|base|] == base && u2[|base|] == '&';
    CleanUrlUnique(u1, base);
    CleanUrlUnique(u2, base);
  }
}
