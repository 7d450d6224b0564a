/**
 * How a message's body is delimited (`framing_headers`) and whether a request
 * asks for an interim 100 Continue response (`has_expect_100_continue`).
 * Both read the header list only through get_comma_header, so both are
 * stated over `CommaValues`.
 */
module Framing {
  import opened Wrappers
  import opened Ascii
  import opened Headers
  import opened CommaHeaders

  /** The names as the source spells them when it calls get_comma_header. */
  const TransferEncodingName: Bytes := [84, 114, 97, 110, 115, 102, 101, 114, 45, 69, 110, 99, 111, 100, 105, 110, 103]  // Transfer-Encoding
  const ContentLengthName: Bytes := [67, 111, 110, 116, 101, 110, 116, 45, 76, 101, 110, 103, 116, 104]  // Content-Length
  const ExpectName: Bytes := [69, 120, 112, 101, 99, 116]  // Expect

  const Expect: Bytes := [101, 120, 112, 101, 99, 116]  // expect
  const Continue100: Bytes := [49, 48, 48, 45, 99, 111, 110, 116, 105, 110, 117, 101]  // 100-continue
  const Http11: Bytes := [49, 46, 49]  // 1.1

  /** The constants spell what the source writes. */
  lemma NamesSpelling()
    ensures TransferEncodingName == Encode("Transfer-Encoding")
    ensures ContentLengthName == Encode("Content-Length")
    ensures ExpectName == Encode("Expect") && Expect == Encode("expect")
    ensures Continue100 == Encode("100-continue")
    ensures Http11 == Encode("1.1")
  {
  }

  /** get_comma_header lower-cases the name it is given; these are the results. */
  lemma TransferEncodingNameLowered()
    ensures Lower(TransferEncodingName) == TransferEncoding
  {
  }

  lemma ContentLengthNameLowered()
    ensures Lower(ContentLengthName) == ContentLength
  {
  }

  lemma ExpectNameLowered()
    ensures Lower(ExpectName) == Expect
  {
  }

  // ---------------------------------------------------------------------
  // framing_headers

  /** The effective Transfer-Encoding and Content-Length of a message; at most one is set. */
  datatype Framing = Framing(transferEncoding: Option<Bytes>, contentLength: Option<nat>)

  /**
   * What framing_headers relies on without checking it itself: a
   * Transfer-Encoding that is present is exactly `chunked` (the assert), and
   * otherwise the first Content-Length token is a decimal number (the `int`
   * conversion). Lists that passed normalize_and_validate meet it
   * (`FramingOfNormalized`).
   */
  predicate FramingReady(hs: seq<Header>) {
    var te := CommaValues(hs, TransferEncoding, true);
    var cl := CommaValues(hs, ContentLength, true);
    (te != [] ==> te == [Chunked]) && (te == [] && cl != [] ==> AllDigits(cl[0]))
  }

  function FramingHeaders(hs: seq<Header>): (r: Framing)
    requires FramingReady(hs)
    ensures r.transferEncoding.None? || r.contentLength.None?
    ensures r.transferEncoding.Some? ==> r.transferEncoding.value == Chunked
    ensures r.transferEncoding.Some? <==>
      exists j | 0 <= j < |hs| :: IsTransferEncoding(hs[j]) && ValueTokens(hs[j].value, true) != []
    ensures r == Framing(None, None) <==>
      forall j | 0 <= j < |hs| && (IsTransferEncoding(hs[j]) || IsContentLength(hs[j])) ::
        ValueTokens(hs[j].value, true) == []
  {
    TransferEncodingNameLowered();
    ContentLengthNameLowered();
    CommaValuesEmpty(hs, TransferEncoding, true);
    CommaValuesEmpty(hs, ContentLength, true);
    var transferEncodings := CommaValues(hs, Lower(TransferEncodingName), true);
    if transferEncodings != [] then
      Framing(Some(Chunked), None)
    else
      var contentLengths := CommaValues(hs, Lower(ContentLengthName), true);
      if contentLengths != [] then
        Framing(None, Some(ParseDecimal(contentLengths[0])))
      else
        Framing(None, None)
  }

  /** `chunked` is a single lower-case token. */
  lemma ChunkedIsToken()
    ensures IsToken(Chunked, true)
  {
    UnpaddedIsToken(Chunked, true);
  }

  /** A validated digit string is a single token, whether or not tokens are lower-cased. */
  lemma DigitsAreToken(s: Bytes, lowercase: bool)
    requires IsDigits(s)
    ensures IsToken(s, lowercase)
  {
    DigitsAreAtoms(s);
    LowerIsLower(s);
  }

  /** A value that lower-cases to `chunked` is the single token `chunked`. */
  lemma ChunkedValueTokens(v: Bytes)
    requires Lower(v) == Chunked
    ensures ValueTokens(v, true) == [Chunked]
  {
    ChunkedIsToken();
    ValueTokensOfToken(Chunked, true);
    LowerIsLower(v);
  }

  /** The only one of several headers with a name, if any. */
  lemma OnlyMatch(hs: seq<Header>, nameLower: Bytes, j: nat)
    requires j < |hs| && HasName(hs[j], nameLower)
    requires forall i, k | 0 <= i < k < |hs| :: !(HasName(hs[i], nameLower) && HasName(hs[k], nameLower))
    ensures forall i | 0 <= i < |hs| && i != j :: !HasName(hs[i], nameLower)
  {
  }

  /** On a validated list, get_comma_header of Transfer-Encoding is `[b"chunked"]` or empty. */
  lemma TransferEncodingsOfNormalized(hs: seq<Header>)
    requires AtMostOneTransferEncoding(hs) && TransferEncodingsAreChunked(hs)
    ensures SawTransferEncoding(hs) ==> CommaValues(hs, TransferEncoding, true) == [Chunked]
    ensures !SawTransferEncoding(hs) ==> CommaValues(hs, TransferEncoding, true) == []
  {
    if j :| 0 <= j < |hs| && IsTransferEncoding(hs[j]) {
      OnlyMatch(hs, TransferEncoding, j);
      CommaValuesOne(hs, TransferEncoding, true, j);
      ChunkedValueTokens(hs[j].value);
    } else {
      CommaValuesNone(hs, TransferEncoding, true);
    }
  }

  /** On a validated list, get_comma_header of Content-Length is the one value, or empty. */
  lemma ContentLengthsOfNormalized(hs: seq<Header>)
    requires AtMostOneContentLength(hs) && ContentLengthsAreDigits(hs)
    ensures forall j | 0 <= j < |hs| && IsContentLength(hs[j]) ::
      CommaValues(hs, ContentLength, true) == [hs[j].value]
    ensures !SawContentLength(hs) ==> CommaValues(hs, ContentLength, true) == []
  {
    forall j | 0 <= j < |hs| && IsContentLength(hs[j])
      ensures CommaValues(hs, ContentLength, true) == [hs[j].value]
    {
      OnlyMatch(hs, ContentLength, j);
      CommaValuesOne(hs, ContentLength, true, j);
      DigitsAreToken(hs[j].value, true);
      ValueTokensOfToken(hs[j].value, true);
    }
    if !SawContentLength(hs) {
      CommaValuesNone(hs, ContentLength, true);
    }
  }

  /**
   * A list that passed normalize_and_validate meets framing_headers'
   * assumptions, and its framing is: chunked if it has a Transfer-Encoding
   * header; otherwise the decimal value of its Content-Length header if it
   * has one; otherwise neither.
   */
  lemma FramingOfNormalized(hs: seq<Header>)
    requires Normalized(hs)
    ensures FramingReady(hs)
    ensures SawTransferEncoding(hs) ==> FramingHeaders(hs) == Framing(Some(Chunked), None)
    ensures forall j | 0 <= j < |hs| && IsContentLength(hs[j]) ::
      !SawTransferEncoding(hs) ==> FramingHeaders(hs) == Framing(None, Some(ParseDecimal(hs[j].value)))
    ensures !SawTransferEncoding(hs) && !SawContentLength(hs) ==> FramingHeaders(hs) == Framing(None, None)
  {
    TransferEncodingNameLowered();
    ContentLengthNameLowered();
    TransferEncodingsOfNormalized(hs);
    ContentLengthsOfNormalized(hs);
  }

  // ---------------------------------------------------------------------
  // has_expect_100_continue

  /** The parts of a request that has_expect_100_continue looks at. */
  datatype Request = Request(httpVersion: Bytes, headers: seq<Header>)

  /**
   * An HTTP/1.0 request never expects 100 Continue (the version is compared
   * as bytes); otherwise it does when some Expect header carries the exact,
   * case-sensitive token `100-continue`.
   */
  function HasExpect100Continue(request: Request): (r: bool)
    ensures LexLess(request.httpVersion, Http11) ==> !r
    ensures !LexLess(request.httpVersion, Http11) ==>
      (r <==> exists j | 0 <= j < |request.headers| ::
        HasName(request.headers[j], Expect) && Continue100 in ValueTokens(request.headers[j].value, false))
  {
    if LexLess(request.httpVersion, Http11) then
      false
    else
      ExpectNameLowered();
      CommaValuesMember(request.headers, Expect, false, Continue100);
      Continue100 in CommaValues(request.headers, Lower(ExpectName), false)
  }

  /**
   * With a single Expect header whose value is one token, the answer is
   * whether that token is exactly `100-continue`: no case folding.
   */
  lemma ExpectSingleToken(version: Bytes, name: Bytes, v: Bytes)
    requires !LexLess(version, Http11)
    requires Lower(name) == Expect
    requires IsToken(v, false)
    ensures HasExpect100Continue(Request(version, [Header(name, v)])) <==> v == Continue100
  {
    var request := Request(version, [Header(name, v)]);
    ValueTokensOfToken(v, false);
    assert HasName(request.headers[0], Expect);
    assert ValueTokens(request.headers[0].value, false) == [v];
    if HasExpect100Continue(request) {
      var j :| 0 <= j < |request.headers| && HasName(request.headers[j], Expect)
        && Continue100 in ValueTokens(request.headers[j].value, false);
      assert j == 0;
    }
  }

  /** `Expect: 100-continue` on HTTP/1.1 is honoured. */
  lemma ExpectHonoured()
    ensures HasExpect100Continue(Request(Http11, [Header(ExpectName, Continue100)]))
  {
    ExpectNameLowered();
    UnpaddedIsToken(Continue100, false);
    ExpectSingleToken(Http11, ExpectName, Continue100);
  }

  /**
   * Header values are not stripped when they are validated, so the token is
   * found inside whatever whitespace surrounds it: `Expect:  100-continue `
   * on HTTP/1.1 is honoured.
   */
  lemma ExpectPaddedHonoured(before: Bytes, after: Bytes)
    requires AllSpace(before) && AllSpace(after)
    ensures HasExpect100Continue(Request(Http11, [Header(ExpectName, before + Continue100 + after)]))
  {
    var v := before + Continue100 + after;
    var request := Request(Http11, [Header(ExpectName, v)]);
    ExpectNameLowered();
    assert Comma !in v by {
      forall i | 0 <= i < |v| ensures v[i] != Comma {
        if i < |before| {
          assert v[i] == before[i];
        } else if i < |before| + |Continue100| {
          assert v[i] == Continue100[i - |before|];
        } else {
          assert v[i] == after[i - |before| - |Continue100|];
        }
      }
    }
    SplitWithoutSep(v, Comma);
    StripPadded(before, Continue100, after);
    PieceTokensSingle(v);
    assert ValueTokens(v, false) == [Continue100];
    assert HasName(request.headers[0], Expect);
  }

  /** The same header on an HTTP/1.0 request is ignored. */
  lemma ExpectIgnoredOnHttp10()
    ensures !HasExpect100Continue(Request([49, 46, 48], [Header(ExpectName, Continue100)]))
  {
    assert LexLess([49, 46, 48], Http11);
  }

  const Continue100Capitalised: Bytes := [49, 48, 48, 45, 67, 111, 110, 116, 105, 110, 117, 101]  // 100-Continue

  lemma Continue100CapitalisedIsToken()
    ensures IsToken(Continue100Capitalised, false)
    ensures Continue100Capitalised != Continue100
  {
    UnpaddedIsToken(Continue100Capitalised, false);
    assert Continue100Capitalised[4] != Continue100[4];
  }

  /** `Expect: 100-Continue` is not recognised: the token is matched case-sensitively. */
  lemma ExpectCaseSensitive()
    ensures !HasExpect100Continue(Request(Http11, [Header(ExpectName, Continue100Capitalised)]))
  {
    ExpectNameLowered();
    Continue100CapitalisedIsToken();
    ExpectSingleToken(Http11, ExpectName, Continue100Capitalised);
  }
}
