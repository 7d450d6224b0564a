/**
 * Header lists and their validation: `normalize_and_validate` of
 * h11/headers.py. A header list is an ordered sequence of (name, value)
 * byte pairs; names match case-insensitively but are kept as received.
 */
module Headers {
  import opened Wrappers
  import opened Ascii

  datatype Header = Header(name: Bytes, value: Bytes)

  /** The ProtocolError raised by normalize_and_validate, one variant per raise site. */
  datatype HeaderError =
    | IllegalHeaderName            // whitespace around a name
    | MultipleContentLength        // a second Content-Length
    | BadContentLength             // a Content-Length value that is not all digits
    | MultipleTransferEncoding     // a second Transfer-Encoding
    | UnsupportedTransferEncoding  // a Transfer-Encoding other than chunked

  // The lower-cased names and the one supported coding, spelled out byte by
  // byte so that comparing against them stays cheap; ConstantsSpelling
  // below checks them against their text.
  const ContentLength: Bytes := [99, 111, 110, 116, 101, 110, 116, 45, 108, 101, 110, 103, 116, 104]  // content-length
  const TransferEncoding: Bytes := [116, 114, 97, 110, 115, 102, 101, 114, 45, 101, 110, 99, 111, 100, 105, 110, 103]  // transfer-encoding
  const Chunked: Bytes := [99, 104, 117, 110, 107, 101, 100]  // chunked

  lemma ConstantsSpelling()
    ensures ContentLength == Encode("content-length")
    ensures TransferEncoding == Encode("transfer-encoding")
    ensures Chunked == Encode("chunked")
  {
  }

  /** Case-insensitive name match against an already lower-cased name. */
  predicate HasName(h: Header, nameLower: Bytes) {
    Lower(h.name) == nameLower
  }

  predicate IsContentLength(h: Header) { HasName(h, ContentLength) }

  predicate IsTransferEncoding(h: Header) { HasName(h, TransferEncoding) }

  predicate SawContentLength(hs: seq<Header>) {
    exists j | 0 <= j < |hs| :: IsContentLength(hs[j])
  }

  predicate SawTransferEncoding(hs: seq<Header>) {
    exists j | 0 <= j < |hs| :: IsTransferEncoding(hs[j])
  }

  lemma SawSnoc(hs: seq<Header>, h: Header)
    ensures SawContentLength(hs + [h]) == (SawContentLength(hs) || IsContentLength(h))
    ensures SawTransferEncoding(hs + [h]) == (SawTransferEncoding(hs) || IsTransferEncoding(h))
  {
    var hs' := hs + [h];
    assert forall i | 0 <= i < |hs| :: hs'[i] == hs[i];
    assert hs'[|hs|] == h;
  }

  lemma SawStep(hs: seq<Header>, i: nat)
    requires i < |hs|
    ensures SawContentLength(hs[..i + 1]) == (SawContentLength(hs[..i]) || IsContentLength(hs[i]))
    ensures SawTransferEncoding(hs[..i + 1]) == (SawTransferEncoding(hs[..i]) || IsTransferEncoding(hs[i]))
  {
    TakeSnoc(hs, i);
    SawSnoc(hs[..i], hs[i]);
  }

  /**
   * The checks normalize_and_validate makes on one entry, in its order,
   * given whether an earlier entry was a Content-Length or a
   * Transfer-Encoding; None when the entry passes.
   */
  function EntryError(h: Header, sawContentLength: bool, sawTransferEncoding: bool): (e: Option<HeaderError>)
    ensures e == Some(IllegalHeaderName) <==> Strip(h.name) != h.name
    ensures e.None? <==>
      Strip(h.name) == h.name
      && (IsContentLength(h) ==> !sawContentLength && IsDigits(h.value))
      && (IsTransferEncoding(h) ==> !sawTransferEncoding && Lower(h.value) == Chunked)
  {
    if Strip(h.name) != h.name then Some(IllegalHeaderName)
    else if IsContentLength(h) && sawContentLength then Some(MultipleContentLength)
    else if IsContentLength(h) && !IsDigits(h.value) then Some(BadContentLength)
    else if IsTransferEncoding(h) && sawTransferEncoding then Some(MultipleTransferEncoding)
    else if IsTransferEncoding(h) && Lower(h.value) != Chunked then Some(UnsupportedTransferEncoding)
    else None
  }

  predicate NamesStripped(hs: seq<Header>) {
    forall i | 0 <= i < |hs| :: Strip(hs[i].name) == hs[i].name
  }

  predicate AtMostOneContentLength(hs: seq<Header>) {
    forall i, j | 0 <= i < j < |hs| :: !(IsContentLength(hs[i]) && IsContentLength(hs[j]))
  }

  predicate ContentLengthsAreDigits(hs: seq<Header>) {
    forall i | 0 <= i < |hs| :: IsContentLength(hs[i]) ==> IsDigits(hs[i].value)
  }

  predicate AtMostOneTransferEncoding(hs: seq<Header>) {
    forall i, j | 0 <= i < j < |hs| :: !(IsTransferEncoding(hs[i]) && IsTransferEncoding(hs[j]))
  }

  predicate TransferEncodingsAreChunked(hs: seq<Header>) {
    forall i | 0 <= i < |hs| :: IsTransferEncoding(hs[i]) ==> Lower(hs[i].value) == Chunked
  }

  /**
   * The invariants a list that passed normalize_and_validate satisfies: no
   * name has surrounding whitespace; at most one Content-Length, all digits;
   * at most one Transfer-Encoding, `chunked` up to case.
   */
  predicate Normalized(hs: seq<Header>) {
    NamesStripped(hs)
    && AtMostOneContentLength(hs) && ContentLengthsAreDigits(hs)
    && AtMostOneTransferEncoding(hs) && TransferEncodingsAreChunked(hs)
  }

  lemma AtMostOneContentLengthSnoc(hs: seq<Header>, h: Header)
    ensures AtMostOneContentLength(hs + [h]) <==>
      AtMostOneContentLength(hs) && !(SawContentLength(hs) && IsContentLength(h))
  {
    var hs' := hs + [h];
    assert forall i | 0 <= i < |hs| :: hs'[i] == hs[i];
    assert hs'[|hs|] == h;
    if AtMostOneContentLength(hs') && SawContentLength(hs) && IsContentLength(h) {
    }
    if AtMostOneContentLength(hs) && !(SawContentLength(hs) && IsContentLength(h)) {
      forall i, j | 0 <= i < j < |hs'| ensures !(IsContentLength(hs'[i]) && IsContentLength(hs'[j])) {
        if j == |hs| && IsContentLength(hs'[i]) {
          assert IsContentLength(hs[i]);
        }
      }
    }
  }

  lemma AtMostOneTransferEncodingSnoc(hs: seq<Header>, h: Header)
    ensures AtMostOneTransferEncoding(hs + [h]) <==>
      AtMostOneTransferEncoding(hs) && !(SawTransferEncoding(hs) && IsTransferEncoding(h))
  {
    var hs' := hs + [h];
    assert forall i | 0 <= i < |hs| :: hs'[i] == hs[i];
    assert hs'[|hs|] == h;
    if AtMostOneTransferEncoding(hs') && SawTransferEncoding(hs) && IsTransferEncoding(h) {
    }
    if AtMostOneTransferEncoding(hs) && !(SawTransferEncoding(hs) && IsTransferEncoding(h)) {
      forall i, j | 0 <= i < j < |hs'| ensures !(IsTransferEncoding(hs'[i]) && IsTransferEncoding(hs'[j])) {
        if j == |hs| && IsTransferEncoding(hs'[i]) {
          assert IsTransferEncoding(hs[i]);
        }
      }
    }
  }

  lemma NamesStrippedSnoc(hs: seq<Header>, h: Header)
    ensures NamesStripped(hs + [h]) <==> NamesStripped(hs) && Strip(h.name) == h.name
  {
    var hs' := hs + [h];
    assert forall i | 0 <= i < |hs| :: hs'[i] == hs[i];
    assert hs'[|hs|] == h;
  }

  lemma ContentLengthsAreDigitsSnoc(hs: seq<Header>, h: Header)
    ensures ContentLengthsAreDigits(hs + [h]) <==>
      ContentLengthsAreDigits(hs) && (IsContentLength(h) ==> IsDigits(h.value))
  {
    var hs' := hs + [h];
    assert forall i | 0 <= i < |hs| :: hs'[i] == hs[i];
    assert hs'[|hs|] == h;
  }

  lemma TransferEncodingsAreChunkedSnoc(hs: seq<Header>, h: Header)
    ensures TransferEncodingsAreChunked(hs + [h]) <==>
      TransferEncodingsAreChunked(hs) && (IsTransferEncoding(h) ==> Lower(h.value) == Chunked)
  {
    var hs' := hs + [h];
    assert forall i | 0 <= i < |hs| :: hs'[i] == hs[i];
    assert hs'[|hs|] == h;
  }

  /** An entry may be appended to a normalized list exactly when its own checks pass. */
  lemma NormalizedSnoc(hs: seq<Header>, h: Header)
    ensures Normalized(hs + [h]) <==>
      Normalized(hs) && EntryError(h, SawContentLength(hs), SawTransferEncoding(hs)).None?
  {
    NamesStrippedSnoc(hs, h);
    AtMostOneContentLengthSnoc(hs, h);
    ContentLengthsAreDigitsSnoc(hs, h);
    AtMostOneTransferEncodingSnoc(hs, h);
    TransferEncodingsAreChunkedSnoc(hs, h);
  }

  /** Every prefix of a normalized list is normalized. */
  lemma NormalizedPrefix(hs: seq<Header>, n: nat)
    requires n <= |hs| && Normalized(hs)
    ensures Normalized(hs[..n])
  {
    var p := hs[..n];
    assert forall i | 0 <= i < n :: p[i] == hs[i];
  }

  /** A Content-Length and a Transfer-Encoding are never the same header. */
  lemma ContentLengthIsNotTransferEncoding(h: Header)
    ensures !(IsContentLength(h) && IsTransferEncoding(h))
  {
  }

  /**
   * Entry i is the first that fails, with error e: every entry before it
   * passed, so the list up to i is normalized.
   */
  predicate FailsFirstAt(hs: seq<Header>, i: int, e: HeaderError) {
    0 <= i < |hs|
    && Normalized(hs[..i])
    && EntryError(hs[i], SawContentLength(hs[..i]), SawTransferEncoding(hs[..i])) == Some(e)
  }

  /** A list with a failing entry is not normalized. */
  lemma FailsFirstAtNotNormalized(hs: seq<Header>, i: int, e: HeaderError)
    requires FailsFirstAt(hs, i, e)
    ensures !Normalized(hs)
  {
    TakeSnoc(hs, i);
    NormalizedSnoc(hs[..i], hs[i]);
    if Normalized(hs) {
      NormalizedPrefix(hs, i + 1);
    }
  }

  /**
   * The loop of normalize_and_validate read as a recursion: each entry
   * passes its checks given the entries before it.
   */
  predicate Accepted(hs: seq<Header>)
    decreases |hs|
  {
    hs == []
    || (var init := hs[..|hs| - 1];
        Accepted(init) && EntryError(hs[|hs| - 1], SawContentLength(init), SawTransferEncoding(init)).None?)
  }

  /** Checking entry by entry establishes exactly the list-wide invariants. */
  lemma {:induction false} AcceptedIsNormalized(hs: seq<Header>)
    ensures Accepted(hs) <==> Normalized(hs)
    decreases |hs|
  {
    if hs != [] {
      var init := hs[..|hs| - 1];
      AcceptedIsNormalized(init);
      assert hs == init + [hs[|hs| - 1]];
      NormalizedSnoc(init, hs[|hs| - 1]);
    }
  }

  lemma AcceptedSnoc(hs: seq<Header>, h: Header)
    requires Accepted(hs)
    requires EntryError(h, SawContentLength(hs), SawTransferEncoding(hs)).None?
    ensures Accepted(hs + [h])
  {
    var p := hs + [h];
    assert p[..|p| - 1] == hs;
  }

  /** An entry that fails its checks after an accepted prefix is the first to fail, and the list is not normalized. */
  lemma RejectStep(hs: seq<Header>, i: nat, e: HeaderError)
    requires i < |hs| && Accepted(hs[..i])
    requires EntryError(hs[i], SawContentLength(hs[..i]), SawTransferEncoding(hs[..i])) == Some(e)
    ensures FailsFirstAt(hs, i, e) && !Normalized(hs)
  {
    AcceptedIsNormalized(hs[..i]);
    FailsFirstAtNotNormalized(hs, i, e);
  }

  /** An entry that passes its checks extends the accepted prefix. */
  lemma AcceptStep(hs: seq<Header>, i: nat)
    requires i < |hs| && Accepted(hs[..i])
    requires EntryError(hs[i], SawContentLength(hs[..i]), SawTransferEncoding(hs[..i])).None?
    ensures Accepted(hs[..i + 1])
  {
    TakeSnoc(hs, i);
    AcceptedSnoc(hs[..i], hs[i]);
  }

  lemma PrefixSnoc(hs: seq<Header>, i: nat, acc: seq<Header>, next: seq<Header>)
    requires i < |hs| && acc == hs[..i]
    requires next == acc + [Header(hs[i].name, hs[i].value)]
    ensures next == hs[..i + 1]
  {
    TakeSnoc(hs, i);
  }

  /**
   * normalize_and_validate: succeeds exactly on the lists that satisfy the
   * invariants and then returns the entries unchanged, in order (neither
   * names nor values are altered); otherwise it fails with the error the
   * first offending entry raises, all entries before it having passed.
   * Names and values are already bytes, so `bytesify` is the identity here.
   */
  method NormalizeAndValidate(headers: seq<Header>) returns (r: Result<seq<Header>, HeaderError>)
    ensures r.Ok? <==> Normalized(headers)
    ensures r.Ok? ==> r.value == headers
    ensures r.Err? ==> exists i :: FailsFirstAt(headers, i, r.error)
  {
    var newHeaders: seq<Header> := [];
    var sawContentLength := false;
    var sawTransferEncoding := false;
    for i := 0 to |headers|
      invariant newHeaders == headers[..i]
      invariant Accepted(headers[..i])
      invariant sawContentLength == SawContentLength(headers[..i])
      invariant sawTransferEncoding == SawTransferEncoding(headers[..i])
    {
      var name := headers[i].name;
      var value := headers[i].value;
      var nameLower := Lower(name);
      SawStep(headers, i);
      if Strip(name) != name {
        RejectStep(headers, i, IllegalHeaderName);
        return Err(IllegalHeaderName);
      }
      if nameLower == ContentLength {
        if sawContentLength {
          RejectStep(headers, i, MultipleContentLength);
          return Err(MultipleContentLength);
        }
        if !IsDigits(value) {
          RejectStep(headers, i, BadContentLength);
          return Err(BadContentLength);
        }
        sawContentLength := true;
      }
      if nameLower == TransferEncoding {
        if sawTransferEncoding {
          RejectStep(headers, i, MultipleTransferEncoding);
          return Err(MultipleTransferEncoding);
        }
        if Lower(value) != Chunked {
          RejectStep(headers, i, UnsupportedTransferEncoding);
          return Err(UnsupportedTransferEncoding);
        }
        sawTransferEncoding := true;
      }
      AcceptStep(headers, i);
      ghost var accepted := newHeaders;
      newHeaders := newHeaders + [Header(name, value)];
      PrefixSnoc(headers, i, accepted, newHeaders);
    }
    assert headers[..|headers|] == headers;
    AcceptedIsNormalized(headers);
    return Ok(newHeaders);
  }
}
