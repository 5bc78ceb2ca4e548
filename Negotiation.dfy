/**
 * Content negotiation for gzip (section 12.5.3 of RFC 9110, as far as this
 * server goes): the flag `hasGzip` computed from the parsed header map
 * before routing. The server looks only at the header stored under exactly
 * the key "Accept-Encoding" and asks whether any of its values contains the
 * substring "gzip"; it does not split codings or read q-values.
 */
module Negotiation {
  import opened ByteStrings

  /** Go's `http.Header`: canonical header name to the list of its values. */
  type HeaderMap = map<Bytes, seq<Bytes>>

  const AcceptEncoding: Bytes := "Accept-Encoding"
  const GzipToken: Bytes := "gzip"

  /** Some value in `values` mentions gzip. */
  predicate MentionsGzip(values: seq<Bytes>)
  {
    exists j :: 0 <= j < |values| && Contains(values[j], GzipToken)
  }

  /** The client asks for gzip: a value under "Accept-Encoding" contains "gzip". */
  predicate HasGzip(headers: HeaderMap)
  {
    AcceptEncoding in headers && MentionsGzip(headers[AcceptEncoding])
  }

  /**
   * The scan of the header map: every key is visited in an unspecified
   * order (Go randomises map iteration); keys other than "Accept-Encoding"
   * are skipped, and each value of that key that contains "gzip" sets the flag.
   */
  method ScanAcceptEncoding(headers: HeaderMap) returns (hasGzip: bool)
    ensures hasGzip == HasGzip(headers)
  {
    hasGzip := false;
    var unvisited := headers.Keys;
    while unvisited != {}
      invariant unvisited <= headers.Keys
      invariant hasGzip == (AcceptEncoding in headers.Keys - unvisited && MentionsGzip(headers[AcceptEncoding]))
      decreases unvisited
    {
      var k :| k in unvisited;
      unvisited := unvisited - {k};
      if k != AcceptEncoding {
        continue;
      }
      var values := headers[k];
      var i := 0;
      while i < |values|
        invariant 0 <= i <= |values|
        invariant hasGzip == exists j :: 0 <= j < i && Contains(values[j], GzipToken)
      {
        if Contains(values[i], GzipToken) {
          hasGzip := true;
        }
        i := i + 1;
      }
    }
  }

  /** Headers under any other key never influence the decision. */
  lemma OtherKeysIgnored(headers: HeaderMap, k: Bytes, values: seq<Bytes>)
    requires k != AcceptEncoding
    ensures HasGzip(headers[k := values]) == HasGzip(headers)
    ensures HasGzip(headers - {k}) == HasGzip(headers)
  {
  }

  /** Adding a value that contains "gzip" anywhere switches compression on. */
  lemma AnyGzipValueSuffices(headers: HeaderMap, values: seq<Bytes>, j: nat, pre: Bytes, post: Bytes)
    requires j < |values| && values[j] == pre + GzipToken + post
    ensures HasGzip(headers[AcceptEncoding := values])
  {
    assert values[j][|pre|..|pre| + |GzipToken|] == GzipToken;
    assert OccursAt(values[j], GzipToken, |pre|);
  }

  /**
   * Substring matching, not token parsing: a refusal such as "gzip;q=0"
   * and the distinct coding "x-gzip" both enable gzip.
   */
  lemma GzipVariantsEnable()
    ensures HasGzip(map[AcceptEncoding := ["gzip;q=0"]])
    ensures HasGzip(map[AcceptEncoding := ["deflate", "x-gzip"]])
  {
    AnyGzipValueSuffices(map[], ["gzip;q=0"], 0, "", ";q=0");
    AnyGzipValueSuffices(map[], ["deflate", "x-gzip"], 1, "x-", "");
  }

  /** Values in which the letter g never occurs cannot ask for gzip. */
  lemma WithoutLetterG(values: seq<Bytes>)
    requires forall j :: 0 <= j < |values| ==> 'g' !in values[j]
    ensures !MentionsGzip(values)
  {
    forall j | 0 <= j < |values|
      ensures !Contains(values[j], GzipToken)
    {
      FirstByteAbsent(values[j], GzipToken);
    }
  }

  /** A coding list without the substring, such as "deflate, br", leaves gzip off. */
  lemma NoSubstringNoGzip()
    ensures !HasGzip(map[AcceptEncoding := ["deflate, br", "identity"]])
  {
    WithoutLetterG(["deflate, br", "identity"]);
  }

  /** The key must be spelt exactly, and an empty value list asks for nothing. */
  lemma KeyMustBeExact()
    ensures !HasGzip(map["accept-encoding" := ["gzip"]])
    ensures !HasGzip(map[AcceptEncoding := []])
  {
  }
}
