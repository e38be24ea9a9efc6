/** `BasicAuth` of the Basic-authentication API: locating the Base64 credentials. */
module BasicAuth {
  import opened Wrappers
  import opened Text

  /** The case-sensitive scheme prefix, with its single space. */
  const BasicPrefix: string := "Basic "

  /** `BasicAuth.extract_base64_authorization_header`: the part of the header after
      `"Basic "`, or None when the header is missing, not a string, or does not
      start with exactly that prefix. */
  function ExtractBase64AuthorizationHeader(header: Option<string>): (encoded: Option<string>)
    ensures encoded.Some? <==> header.Some? && StartsWith(header.value, BasicPrefix)
    ensures encoded.Some? ==> header.value == BasicPrefix + encoded.value
    ensures encoded.Some? ==> |encoded.value| == |header.value| - 6
  {
    if header.None? || !StartsWith(header.value, BasicPrefix) then None
    else Some(header.value[6..])
  }

  /** Round trip: prefixing any string with `"Basic "` and extracting gives it back. */
  lemma ExtractAfterPrefix(s: string)
    ensures ExtractBase64AuthorizationHeader(Some(BasicPrefix + s)) == Some(s)
  {
  }

  /** The prefix test is exact: a lower-case scheme, a missing space or another
      scheme are all rejected. */
  lemma ExtractRejectsOtherSchemes()
    ensures ExtractBase64AuthorizationHeader(Some("basic x")) == None
    ensures ExtractBase64AuthorizationHeader(Some("Basicx")) == None
    ensures ExtractBase64AuthorizationHeader(Some("Bearer xxx")) == None
    ensures ExtractBase64AuthorizationHeader(Some("Basic")) == None
  {
    assert "basic x"[..6] != BasicPrefix by { assert "basic x"[0] != BasicPrefix[0]; }
    assert "Basicx"[..6] != BasicPrefix by { assert "Basicx"[5] != BasicPrefix[5]; }
    assert "Bearer xxx"[..6] != BasicPrefix by { assert "Bearer xxx"[1] != BasicPrefix[1]; }
  }
}
