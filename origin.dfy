/** The origin URL's scheme handling of `set_ssl_options` and `set_origin`. */
module Origin {
  import opened Types

  predicate StartsWith(s: string, prefix: string) {
    |prefix| <= |s| && s[..|prefix|] == prefix
  }

  /** The origin names one of the two schemes the controller switches between. */
  predicate HasHttpScheme(s: string) {
    StartsWith(s, "http:") || StartsWith(s, "https:")
  }

  /** The origin without its `http:` or `https:` scheme. */
  function SchemeFree(s: string): string {
    if StartsWith(s, "https:") then s[6..] else if StartsWith(s, "http:") then s[5..] else s
  }

  lemma SchemeOf(rest: string)
    ensures StartsWith("https:" + rest, "https:") && !StartsWith("https:" + rest, "http:")
    ensures StartsWith("http:" + rest, "http:") && !StartsWith("http:" + rest, "https:")
    ensures SchemeFree("https:" + rest) == rest && SchemeFree("http:" + rest) == rest
  {
    assert ("https:" + rest)[..6] == "https:";
    assert ("https:" + rest)[4] == 's';
    assert ("http:" + rest)[..5] == "http:";
    assert ("http:" + rest)[4] == ':';
    assert ("https:" + rest)[6..] == rest;
    assert ("http:" + rest)[5..] == rest;
  }

  lemma SplitScheme(s: string)
    ensures StartsWith(s, "https:") ==> s == "https:" + s[6..]
    ensures StartsWith(s, "http:") ==> s == "http:" + s[5..]
  {
  }

  /** set_ssl_options' rewrite of the origin: with SSL a leading `http:`
      becomes `https:`, without it a leading `https:` becomes `http:`. */
  function ApplySslScheme(origin: string, useSsl: bool): (r: string)
    ensures useSsl ==> !StartsWith(r, "http:")
    ensures !useSsl ==> !StartsWith(r, "https:")
    ensures HasHttpScheme(r) == HasHttpScheme(origin)
    ensures SchemeFree(r) == SchemeFree(origin)
  {
    SplitScheme(origin);
    if useSsl then
      if StartsWith(origin, "http:") then SchemeOf(origin[5..]); "https:" + origin[5..] else origin
    else
      if StartsWith(origin, "https:") then SchemeOf(origin[6..]); "http:" + origin[6..] else origin
  }

  /** Applying the same options twice is applying them once. */
  lemma ApplySslSchemeIdempotent(origin: string, useSsl: bool)
    ensures ApplySslScheme(ApplySslScheme(origin, useSsl), useSsl) == ApplySslScheme(origin, useSsl)
  {
  }

  /** Only the last SSL choice matters. */
  lemma LastSslChoiceWins(origin: string, first: bool, second: bool)
    ensures ApplySslScheme(ApplySslScheme(origin, first), second) == ApplySslScheme(origin, second)
  {
  }

  /** set_origin: an origin naming http or https is kept verbatim; any
      other gets `http://` in front and then the current SSL choice. */
  function OriginFor(requested: string, useSsl: bool): (r: string)
    ensures HasHttpScheme(r)
    ensures HasHttpScheme(requested) ==> r == requested
    ensures !HasHttpScheme(requested) ==>
              SchemeFree(r) == "//" + requested && (StartsWith(r, "https:") <==> useSsl)
  {
    SchemeOf("//" + requested);
    assert "http://" + requested == "http:" + ("//" + requested);
    if HasHttpScheme(requested) then requested
    else ApplySslScheme("http://" + requested, useSsl)
  }

  /** `http://example.com` with SSL becomes `https://example.com`, and
      back without it. */
  lemma ExampleOriginSwitch()
    ensures ApplySslScheme("http://example.com", true) == "https://example.com"
    ensures ApplySslScheme("https://example.com", false) == "http://example.com"
  {
  }

  /** A bare host name under SSL becomes an https origin. */
  lemma ExampleBareHost()
    ensures OriginFor("example.com", true) == "https://example.com"
  {
    assert !StartsWith("example.com", "http:") && !StartsWith("example.com", "https:") by {
      assert "example.com"[0] == 'e';
    }
    assert "http://" + "example.com" == "http:" + "//example.com";
    ExampleOriginSwitch();
  }
}
