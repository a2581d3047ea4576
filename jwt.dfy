/**
 * Reading the bearer token out of an HTTP `Authorization` header. Signing
 * and verifying tokens is done by a library and is not part of this model.
 */
module Jwt {
  import opened Base
  import opened Text

  const BearerPrefix: string := "Bearer "
  const InvalidHeader: string := "Authorization header missing or invalid"

  /**
   * `extractTokenFromHeader`: a missing or empty header, or one that does
   * not start with `Bearer `, is refused; otherwise the token is the rest of
   * the header after those seven characters.
   */
  function ExtractTokenFromHeader(authHeader: Option<string>): (r: Result<string, string>)
    ensures r.Err? <==> !Truthy(authHeader) || !StartsWith(authHeader.value, BearerPrefix)
    ensures r.Err? ==> r.error == InvalidHeader
    ensures r.Ok? ==> authHeader.Some? && BearerPrefix + r.value == authHeader.value
  {
    if !Truthy(authHeader) || !StartsWith(authHeader.value, BearerPrefix) then
      Err(InvalidHeader)
    else
      var header := authHeader.value;
      assert header == header[..7] + header[7..];
      Ok(header[7..])
  }

  /** Every token put behind the prefix comes back unchanged, the empty one included. */
  lemma ExtractAfterPrefix(token: string)
    ensures ExtractTokenFromHeader(Some(BearerPrefix + token)) == Ok(token)
  {
    var header := BearerPrefix + token;
    assert header[..|BearerPrefix|] == BearerPrefix;
    assert header[7..] == token;
  }

  /** A header that differs from `Bearer ` in its first seven characters is refused. */
  lemma WrongSchemeRefused(header: string)
    requires |header| < 7 || header[..7] != BearerPrefix
    ensures ExtractTokenFromHeader(Some(header)) == Err(InvalidHeader)
  {
  }
}
