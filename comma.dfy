/**
 * The comma-list accessors of h11/headers.py: `get_comma_header`, which
 * collects the comma-separated tokens of every header with a given name,
 * and `set_comma_header`, which replaces those headers in the caller's list.
 */
module CommaHeaders {
  import opened Ascii
  import opened Headers

  // ---------------------------------------------------------------------
  // Tokens

  /** What get_comma_header hands out: non-empty, comma-free, stripped, lower-case when asked. */
  predicate IsToken(t: Bytes, lowercase: bool) {
    t != [] && Comma !in t && Strip(t) == t && (lowercase ==> IsLower(t))
  }

  /** A non-empty, comma-free value with no whitespace at either end is a token as it is. */
  lemma UnpaddedIsToken(t: Bytes, lowercase: bool)
    requires t != [] && Comma !in t && !IsSpace(t[0]) && !IsSpace(t[|t| - 1])
    requires lowercase ==> IsLower(t)
    ensures IsToken(t, lowercase)
  {
    StripUnchanged(t);
  }

  /** The pieces of a split value, each stripped, the empty ones dropped, in order. */
  function PieceTokens(pieces: seq<Bytes>): seq<Bytes>
    decreases |pieces|
  {
    if pieces == [] then []
    else
      var t := Strip(pieces[|pieces| - 1]);
      PieceTokens(pieces[..|pieces| - 1]) + (if t != [] then [t] else [])
  }

  /** The tokens one header value contributes: lower-cased on request, split on `,`, stripped, empties dropped. */
  function ValueTokens(value: Bytes, lowercase: bool): (r: seq<Bytes>)
    ensures forall k | 0 <= k < |r| :: IsToken(r[k], lowercase)
  {
    LowerIsLower(value);
    var v := if lowercase then Lower(value) else value;
    SplitPiecesAreTokens(v, lowercase);
    PieceTokens(Split(v, Comma))
  }

  /** The values of the headers whose name matches, in header order. */
  function MatchingValues(hs: seq<Header>, nameLower: Bytes): (r: seq<Bytes>)
    ensures |r| + |Removed(hs, nameLower)| == |hs|
    decreases |hs|
  {
    if hs == [] then []
    else
      var h := hs[|hs| - 1];
      MatchingValues(hs[..|hs| - 1], nameLower) + (if HasName(h, nameLower) then [h.value] else [])
  }

  /** The concatenation of f(x) for the elements x of xs, in order. */
  function FlatMap<A, B>(xs: seq<A>, f: A -> seq<B>): seq<B>
    decreases |xs|
  {
    if xs == [] then [] else FlatMap(xs[..|xs| - 1], f) + f(xs[|xs| - 1])
  }

  function Tokenizer(lowercase: bool): Bytes -> seq<Bytes> {
    value => ValueTokens(value, lowercase)
  }

  /**
   * The result of get_comma_header: the tokens of every header whose name
   * matches, in header order and then in order within each value.
   */
  function CommaValues(hs: seq<Header>, nameLower: Bytes, lowercase: bool): seq<Bytes> {
    FlatMap(MatchingValues(hs, nameLower), Tokenizer(lowercase))
  }

  lemma {:induction false} FlatMapAppend<A, B>(xs: seq<A>, ys: seq<A>, f: A -> seq<B>)
    ensures FlatMap(xs + ys, f) == FlatMap(xs, f) + FlatMap(ys, f)
    decreases |ys|
  {
    if ys == [] {
      assert xs + ys == xs;
    } else {
      assert (xs + ys)[..|xs + ys| - 1] == xs + ys[..|ys| - 1];
      FlatMapAppend(xs, ys[..|ys| - 1], f);
    }
  }

  lemma {:induction false} FlatMapMember<A, B>(xs: seq<A>, f: A -> seq<B>, y: B)
    ensures y in FlatMap(xs, f) <==> exists k | 0 <= k < |xs| :: y in f(xs[k])
    decreases |xs|
  {
    if xs != [] {
      var init := xs[..|xs| - 1];
      FlatMapMember(init, f, y);
      assert forall k | 0 <= k < |init| :: init[k] == xs[k];
    }
  }

  lemma {:induction false} MatchingValuesAppend(a: seq<Header>, b: seq<Header>, nameLower: Bytes)
    ensures MatchingValues(a + b, nameLower) == MatchingValues(a, nameLower) + MatchingValues(b, nameLower)
    decreases |b|
  {
    if b == [] {
      assert a + b == a;
    } else {
      var init, h := b[..|b| - 1], b[|b| - 1];
      var extra := if HasName(h, nameLower) then [h.value] else [];
      assert (a + b)[..|a + b| - 1] == a + init && (a + b)[|a + b| - 1] == h;
      assert MatchingValues(a + b, nameLower) == MatchingValues(a + init, nameLower) + extra;
      assert MatchingValues(b, nameLower) == MatchingValues(init, nameLower) + extra;
      MatchingValuesAppend(a, init, nameLower);
    }
  }

  lemma {:induction false} MatchingValuesMember(hs: seq<Header>, nameLower: Bytes, v: Bytes)
    ensures v in MatchingValues(hs, nameLower) <==> exists j | 0 <= j < |hs| :: HasName(hs[j], nameLower) && hs[j].value == v
    decreases |hs|
  {
    if hs != [] {
      var init := hs[..|hs| - 1];
      MatchingValuesMember(init, nameLower, v);
      assert forall j | 0 <= j < |init| :: init[j] == hs[j];
    }
  }

  /** No header matches: no values. */
  lemma {:induction false} MatchingValuesNone(hs: seq<Header>, nameLower: Bytes)
    requires forall j | 0 <= j < |hs| :: !HasName(hs[j], nameLower)
    ensures MatchingValues(hs, nameLower) == []
    decreases |hs|
  {
    if hs != [] {
      MatchingValuesNone(hs[..|hs| - 1], nameLower);
    }
  }

  /** Exactly one header matches: its value alone. */
  lemma {:induction false} MatchingValuesOne(hs: seq<Header>, nameLower: Bytes, j: nat)
    requires j < |hs| && HasName(hs[j], nameLower)
    requires forall i | 0 <= i < |hs| && i != j :: !HasName(hs[i], nameLower)
    ensures MatchingValues(hs, nameLower) == [hs[j].value]
    decreases |hs|
  {
    var init := hs[..|hs| - 1];
    if j == |hs| - 1 {
      MatchingValuesNone(init, nameLower);
    } else {
      assert !HasName(hs[|hs| - 1], nameLower);
      MatchingValuesOne(init, nameLower, j);
    }
  }

  lemma FlatMapOne<A, B>(x: A, f: A -> seq<B>)
    ensures FlatMap([x], f) == f(x)
  {
    assert [x][..0] == [];
  }

  /** When no header matches, get_comma_header returns nothing. */
  lemma CommaValuesNone(hs: seq<Header>, nameLower: Bytes, lowercase: bool)
    requires forall j | 0 <= j < |hs| :: !HasName(hs[j], nameLower)
    ensures CommaValues(hs, nameLower, lowercase) == []
  {
    MatchingValuesNone(hs, nameLower);
  }

  /** When exactly one header matches, get_comma_header returns the tokens of its value. */
  lemma CommaValuesOne(hs: seq<Header>, nameLower: Bytes, lowercase: bool, j: nat)
    requires j < |hs| && HasName(hs[j], nameLower)
    requires forall i | 0 <= i < |hs| && i != j :: !HasName(hs[i], nameLower)
    ensures CommaValues(hs, nameLower, lowercase) == ValueTokens(hs[j].value, lowercase)
  {
    MatchingValuesOne(hs, nameLower, j);
    FlatMapOne(hs[j].value, Tokenizer(lowercase));
  }

  /** A slice keeps every property that holds of each byte of its source. */
  lemma SliceBytes(s: Bytes, a: nat, b: nat)
    requires a <= b <= |s|
    ensures forall x | x in s[a..b] :: x in s
  {
    forall x | x in s[a..b] ensures x in s {
      var k :| 0 <= k < b - a && s[a..b][k] == x;
      assert s[a + k] == x;
    }
  }

  /** Every byte of a piece of a split comes from the split input. */
  lemma {:induction false} SplitPiecesFrom(s: Bytes, sep: byte)
    ensures forall k, x | 0 <= k < |Split(s, sep)| && x in Split(s, sep)[k] :: x in s
    decreases |s|
  {
    if s != [] {
      SplitPiecesFrom(s[1..], sep);
      var rest := Split(s[1..], sep);
      var r := Split(s, sep);
      forall k, x | 0 <= k < |r| && x in r[k] ensures x in s {
        if s[0] == sep {
          assert r == [[]] + rest;
          assert k > 0 && r[k] == rest[k - 1];
          assert x in s[1..];
        } else {
          assert r == [[s[0]] + rest[0]] + rest[1..];
          if k == 0 {
            if x != s[0] {
              assert x in rest[0];
              assert x in s[1..];
            }
          } else {
            assert r[k] == rest[k];
            assert x in s[1..];
          }
        }
      }
    }
  }

  /** Stripping a piece free of commas (and of upper-case letters) yields a token. */
  lemma StripPieceIsToken(p: Bytes, lowercase: bool)
    requires Comma !in p
    requires lowercase ==> IsLower(p)
    requires Strip(p) != []
    ensures IsToken(Strip(p), lowercase)
  {
    var t := Strip(p);
    var a := LeadingSpace(p);
    SliceBytes(p, a, a + |t|);
    StripIdempotent(p);
    if lowercase {
      forall i | 0 <= i < |t| ensures !IsUpper(t[i]) {
        assert t[i] in p;
      }
    }
  }

  /** Tokenizing pieces distributes over concatenation: the tokens keep the order of their pieces. */
  lemma {:induction false} PieceTokensAppend(a: seq<Bytes>, b: seq<Bytes>)
    ensures PieceTokens(a + b) == PieceTokens(a) + PieceTokens(b)
    decreases |b|
  {
    if b == [] {
      assert a + b == a;
    } else {
      var init, p := b[..|b| - 1], b[|b| - 1];
      var extra := if Strip(p) != [] then [Strip(p)] else [];
      assert (a + b)[..|a + b| - 1] == a + init && (a + b)[|a + b| - 1] == p;
      assert PieceTokens(a + b) == PieceTokens(a + init) + extra;
      assert PieceTokens(b) == PieceTokens(init) + extra;
      PieceTokensAppend(a, init);
    }
  }

  /** Every piece, stripped, in order. */
  function Stripped(pieces: seq<Bytes>): (r: seq<Bytes>)
    ensures |r| == |pieces|
    ensures forall k | 0 <= k < |r| :: r[k] == Strip(pieces[k])
    decreases |pieces|
  {
    if pieces == [] then []
    else
      var init := pieces[..|pieces| - 1];
      assert forall k | 0 <= k < |init| :: init[k] == pieces[k];
      Stripped(init) + [Strip(pieces[|pieces| - 1])]
  }

  /** A byte string is among the tokens exactly when it is non-empty and is some piece, stripped. */
  lemma {:induction false} PieceTokensMember(pieces: seq<Bytes>, t: Bytes)
    ensures t in PieceTokens(pieces) <==> t != [] && t in Stripped(pieces)
    decreases |pieces|
  {
    if pieces != [] {
      PieceTokensMember(pieces[..|pieces| - 1], t);
    }
  }

  /** A single piece yields its stripped form, or nothing when that is empty. */
  lemma PieceTokensSingle(p: Bytes)
    ensures PieceTokens([p]) == if Strip(p) != [] then [Strip(p)] else []
  {
    assert [p][..0] == [];
  }

  /**
   * The tokens of one value are exactly its non-empty stripped pieces: a
   * piece with surrounding whitespace is kept, stripped, and only a piece
   * that is empty or all whitespace is dropped.
   */
  lemma ValueTokensMember(value: Bytes, lowercase: bool, pieces: seq<Bytes>, t: Bytes)
    requires pieces == Split(if lowercase then Lower(value) else value, Comma)
    ensures t in ValueTokens(value, lowercase) <==> t != [] && t in Stripped(pieces)
  {
    PieceTokensMember(pieces, t);
  }

  lemma {:induction false} PieceTokensAreTokens(pieces: seq<Bytes>, lowercase: bool)
    requires forall k | 0 <= k < |pieces| :: Comma !in pieces[k] && (lowercase ==> IsLower(pieces[k]))
    ensures forall k | 0 <= k < |PieceTokens(pieces)| :: IsToken(PieceTokens(pieces)[k], lowercase)
    decreases |pieces|
  {
    if pieces != [] {
      var p := pieces[|pieces| - 1];
      PieceTokensAreTokens(pieces[..|pieces| - 1], lowercase);
      if Strip(p) != [] {
        StripPieceIsToken(p, lowercase);
      }
    }
  }

  /** Every token of a value that has no upper-case letter when `lowercase` is set is a token in the sense of IsToken. */
  lemma SplitPiecesAreTokens(v: Bytes, lowercase: bool)
    requires lowercase ==> IsLower(v)
    ensures forall k | 0 <= k < |PieceTokens(Split(v, Comma))| :: IsToken(PieceTokens(Split(v, Comma))[k], lowercase)
  {
    var pieces := Split(v, Comma);
    SplitPiecesFrom(v, Comma);
    if lowercase {
      forall k | 0 <= k < |pieces| ensures IsLower(pieces[k]) {
        forall i | 0 <= i < |pieces[k]| ensures !IsUpper(pieces[k][i]) {
          assert pieces[k][i] in v;
        }
      }
    }
    PieceTokensAreTokens(pieces, lowercase);
  }

  /**
   * A token is returned exactly when some header whose name matches has it
   * among the tokens of its value; headers with other names contribute nothing.
   */
  lemma CommaValuesMember(hs: seq<Header>, nameLower: Bytes, lowercase: bool, t: Bytes)
    ensures t in CommaValues(hs, nameLower, lowercase) <==>
      exists j | 0 <= j < |hs| :: HasName(hs[j], nameLower) && t in ValueTokens(hs[j].value, lowercase)
  {
    var vs := MatchingValues(hs, nameLower);
    FlatMapMember(vs, Tokenizer(lowercase), t);
    if t in CommaValues(hs, nameLower, lowercase) {
      var k :| 0 <= k < |vs| && t in ValueTokens(vs[k], lowercase);
      MatchingValuesMember(hs, nameLower, vs[k]);
    }
    if exists j | 0 <= j < |hs| :: HasName(hs[j], nameLower) && t in ValueTokens(hs[j].value, lowercase) {
      var j :| 0 <= j < |hs| && HasName(hs[j], nameLower) && t in ValueTokens(hs[j].value, lowercase);
      MatchingValuesMember(hs, nameLower, hs[j].value);
      var k :| 0 <= k < |vs| && vs[k] == hs[j].value;
      assert t in Tokenizer(lowercase)(vs[k]);
    }
  }

  /** get_comma_header returns nothing exactly when no matching header has a token. */
  lemma CommaValuesEmpty(hs: seq<Header>, nameLower: Bytes, lowercase: bool)
    ensures CommaValues(hs, nameLower, lowercase) == [] <==>
      forall j | 0 <= j < |hs| && HasName(hs[j], nameLower) :: ValueTokens(hs[j].value, lowercase) == []
  {
    var cv := CommaValues(hs, nameLower, lowercase);
    if cv != [] {
      CommaValuesMember(hs, nameLower, lowercase, cv[0]);
    }
    if j :| 0 <= j < |hs| && HasName(hs[j], nameLower) && ValueTokens(hs[j].value, lowercase) != [] {
      CommaValuesMember(hs, nameLower, lowercase, ValueTokens(hs[j].value, lowercase)[0]);
    }
  }

  /**
   * Every token get_comma_header returns is non-empty, has no comma and no
   * surrounding whitespace, and is lower-case when lowercase is set.
   */
  lemma CommaValuesAreTokens(hs: seq<Header>, nameLower: Bytes, lowercase: bool)
    ensures forall t | t in CommaValues(hs, nameLower, lowercase) :: IsToken(t, lowercase)
  {
    forall t | t in CommaValues(hs, nameLower, lowercase) ensures IsToken(t, lowercase) {
      CommaValuesMember(hs, nameLower, lowercase, t);
      var j :| 0 <= j < |hs| && HasName(hs[j], nameLower) && t in ValueTokens(hs[j].value, lowercase);
    }
  }

  /** Tokens of a concatenation: the headers of the first part come first. */
  lemma CommaValuesAppend(a: seq<Header>, b: seq<Header>, nameLower: Bytes, lowercase: bool)
    ensures CommaValues(a + b, nameLower, lowercase) == CommaValues(a, nameLower, lowercase) + CommaValues(b, nameLower, lowercase)
  {
    MatchingValuesAppend(a, b, nameLower);
    FlatMapAppend(MatchingValues(a, nameLower), MatchingValues(b, nameLower), Tokenizer(lowercase));
  }

  /** A value made only of tokens joined by commas hands those tokens back. */
  lemma {:induction false} PieceTokensOfTokens(ts: seq<Bytes>, lowercase: bool)
    requires forall k | 0 <= k < |ts| :: IsToken(ts[k], lowercase)
    ensures PieceTokens(ts) == ts
    decreases |ts|
  {
    if ts != [] {
      var init, t := ts[..|ts| - 1], ts[|ts| - 1];
      assert IsToken(t, lowercase);
      PieceTokensOfTokens(init, lowercase);
      PieceTokensOfLastToken(ts);
      TakeSnoc(ts, |ts| - 1);
    }
  }

  /** A last piece that is already stripped and non-empty is kept as it is. */
  lemma PieceTokensOfLastToken(pieces: seq<Bytes>)
    requires pieces != []
    requires pieces[|pieces| - 1] != [] && Strip(pieces[|pieces| - 1]) == pieces[|pieces| - 1]
    ensures PieceTokens(pieces) == PieceTokens(pieces[..|pieces| - 1]) + [pieces[|pieces| - 1]]
  {
  }

  lemma {:induction false} JoinIsLower(ts: seq<Bytes>)
    requires forall k | 0 <= k < |ts| :: IsLower(ts[k])
    ensures IsLower(Join(ts, Comma))
    decreases |ts|
  {
    if |ts| > 1 {
      JoinIsLower(ts[1..]);
      var j := Join(ts, Comma);
      assert j == ts[0] + [Comma] + Join(ts[1..], Comma);
      forall i | 0 <= i < |j| ensures !IsUpper(j[i]) {
        if i < |ts[0]| {
          assert j[i] == ts[0][i];
        } else if i > |ts[0]| {
          assert j[i] == Join(ts[1..], Comma)[i - |ts[0]| - 1];
        }
      }
    }
  }

  /**
   * The comma split inverts `b",".join`: a value built by joining
   * (non-empty) tokens with commas splits back into exactly those tokens;
   * joining no tokens gives the empty value, which has none.
   */
  lemma ValueTokensOfJoin(ts: seq<Bytes>, lowercase: bool)
    requires forall k | 0 <= k < |ts| :: IsToken(ts[k], lowercase)
    ensures ValueTokens(Join(ts, Comma), lowercase) == ts
  {
    if ts == [] {
      EmptyValueTokens(lowercase);
    } else {
      var v := Join(ts, Comma);
      if lowercase {
        JoinIsLower(ts);
        LowerIsLower(v);
      }
      SplitJoin(ts, Comma);
      PieceTokensOfTokens(ts, lowercase);
    }
  }

  /** An empty value has no tokens. */
  lemma EmptyValueTokens(lowercase: bool)
    ensures ValueTokens([], lowercase) == []
  {
    var e: Bytes := [];
    assert Lower(e) == e;
    assert Split(e, Comma) == [e];
    assert Strip(e) == e;
    PieceTokensSingle(e);
  }

  /**
   * get_comma_header: for each header whose lower-cased name equals the
   * lower-cased `name`, lower-case its value when asked, split it on `,`,
   * strip each piece and keep the non-empty ones.
   */
  method GetCommaHeader(headers: seq<Header>, name: Bytes, lowercase: bool) returns (out: seq<Bytes>)
    ensures out == CommaValues(headers, Lower(name), lowercase)
    ensures forall k | 0 <= k < |out| :: IsToken(out[k], lowercase)
  {
    out := [];
    var nameLower := Lower(name);
    for i := 0 to |headers|
      invariant out == CommaValues(headers[..i], nameLower, lowercase)
    {
      var foundName := Lower(headers[i].name);
      if foundName == nameLower {
        var foundRawValue := headers[i].value;
        if lowercase {
          foundRawValue := Lower(foundRawValue);
        }
        ghost var before := out;
        out := AppendPieceTokens(out, Split(foundRawValue, Comma));
        CollectStep(headers, i, nameLower, lowercase, foundRawValue, before, out);
      } else {
        SkipStep(headers, i, nameLower, lowercase);
      }
    }
    assert headers[..|headers|] == headers;
    CommaValuesAreTokens(headers, nameLower, lowercase);
    assert forall k | 0 <= k < |out| :: out[k] in out;
  }

  /**
   * The inner loop of get_comma_header: strips each piece of a split value
   * and appends the non-empty ones to `out`.
   */
  method AppendPieceTokens(out: seq<Bytes>, pieces: seq<Bytes>) returns (r: seq<Bytes>)
    ensures r == out + PieceTokens(pieces)
  {
    r := out;
    for k := 0 to |pieces|
      invariant r == out + PieceTokens(pieces[..k])
    {
      var foundSplitValue := Strip(pieces[k]);
      PieceTokensStep(pieces, k, out, r);
      if foundSplitValue != [] {
        r := r + [foundSplitValue];
      }
    }
    assert pieces[..|pieces|] == pieces;
  }

  /** One matching header: its tokens follow those gathered so far. */
  lemma CollectStep(hs: seq<Header>, i: nat, nameLower: Bytes, lowercase: bool, raw: Bytes, before: seq<Bytes>, out: seq<Bytes>)
    requires i < |hs| && HasName(hs[i], nameLower)
    requires raw == (if lowercase then Lower(hs[i].value) else hs[i].value)
    requires before == CommaValues(hs[..i], nameLower, lowercase)
    requires out == before + PieceTokens(Split(raw, Comma))
    ensures out == CommaValues(hs[..i + 1], nameLower, lowercase)
  {
    CommaValuesStep(hs, i, nameLower, lowercase);
  }

  /** A header whose name does not match adds nothing. */
  lemma SkipStep(hs: seq<Header>, i: nat, nameLower: Bytes, lowercase: bool)
    requires i < |hs| && !HasName(hs[i], nameLower)
    ensures CommaValues(hs[..i + 1], nameLower, lowercase) == CommaValues(hs[..i], nameLower, lowercase)
  {
    assert hs[..i + 1][..i] == hs[..i];
    assert MatchingValues(hs[..i + 1], nameLower) == MatchingValues(hs[..i], nameLower) + [];
    assert MatchingValues(hs[..i], nameLower) + [] == MatchingValues(hs[..i], nameLower);
  }

  lemma CommaValuesStep(hs: seq<Header>, i: nat, nameLower: Bytes, lowercase: bool)
    requires i < |hs| && HasName(hs[i], nameLower)
    ensures CommaValues(hs[..i + 1], nameLower, lowercase) ==
      CommaValues(hs[..i], nameLower, lowercase) + ValueTokens(hs[i].value, lowercase)
  {
    assert hs[..i + 1][..i] == hs[..i];
    var vs := MatchingValues(hs[..i], nameLower);
    var extra := [hs[i].value];
    assert MatchingValues(hs[..i + 1], nameLower) == vs + extra;
    FlatMapAppend(vs, extra, Tokenizer(lowercase));
    assert FlatMap(extra, Tokenizer(lowercase)) == FlatMap(extra[..0], Tokenizer(lowercase)) + ValueTokens(hs[i].value, lowercase);
  }

  /** One piece: its token, if any, follows those gathered so far. */
  lemma PieceTokensStep(pieces: seq<Bytes>, k: nat, before: seq<Bytes>, out: seq<Bytes>)
    requires k < |pieces|
    requires out == before + PieceTokens(pieces[..k])
    ensures out + (if Strip(pieces[k]) != [] then [Strip(pieces[k])] else []) == before + PieceTokens(pieces[..k + 1])
  {
    assert pieces[..k + 1][..k] == pieces[..k];
    var t := if Strip(pieces[k]) != [] then [Strip(pieces[k])] else [];
    assert (before + PieceTokens(pieces[..k])) + t == before + (PieceTokens(pieces[..k]) + t);
  }

  // ---------------------------------------------------------------------
  // Replacing

  /** The entries whose name does not match, in their original relative order. */
  function Removed(hs: seq<Header>, nameLower: Bytes): (r: seq<Header>)
    ensures |r| <= |hs|
    ensures forall k | 0 <= k < |r| :: !HasName(r[k], nameLower)
    decreases |hs|
  {
    if hs == [] then []
    else
      var h := hs[|hs| - 1];
      Removed(hs[..|hs| - 1], nameLower) + (if HasName(h, nameLower) then [] else [h])
  }

  /** One new header per new value, all under `name`, in the order of the values. */
  function Appended(name: Bytes, values: seq<Bytes>): (r: seq<Header>)
    ensures |r| == |values|
    ensures forall k | 0 <= k < |values| :: r[k] == Header(name, values[k])
  {
    seq(|values|, k requires 0 <= k < |values| => Header(name, values[k]))
  }

  /** The list set_comma_header leaves behind. */
  function Replaced(hs: seq<Header>, name: Bytes, values: seq<Bytes>): seq<Header> {
    Removed(hs, Lower(name)) + Appended(name, values)
  }

  /** Removal filters: it distributes over concatenation. */
  lemma {:induction false} RemovedAppend(a: seq<Header>, b: seq<Header>, nameLower: Bytes)
    ensures Removed(a + b, nameLower) == Removed(a, nameLower) + Removed(b, nameLower)
    decreases |b|
  {
    if b == [] {
      assert a + b == a;
    } else {
      var b' := b[..|b| - 1];
      assert (a + b)[..|a + b| - 1] == a + b';
      RemovedAppend(a, b', nameLower);
    }
  }

  /**
   * An entry survives removal exactly when it was in the list and its name
   * does not match; so no matching entry remains.
   */
  lemma {:induction false} RemovedMember(hs: seq<Header>, nameLower: Bytes, h: Header)
    ensures h in Removed(hs, nameLower) <==> h in hs && !HasName(h, nameLower)
    decreases |hs|
  {
    if hs != [] {
      var init := hs[..|hs| - 1];
      RemovedMember(init, nameLower, h);
      assert hs == init + [hs[|hs| - 1]];
    }
  }

  /** A list without matching entries is left as it is. */
  lemma {:induction false} RemovedNothing(hs: seq<Header>, nameLower: Bytes)
    requires forall j | 0 <= j < |hs| :: !HasName(hs[j], nameLower)
    ensures Removed(hs, nameLower) == hs
    decreases |hs|
  {
    if hs != [] {
      RemovedNothing(hs[..|hs| - 1], nameLower);
    }
  }

  /** The entries that are left have no value under the removed name, and all their values under any other. */
  lemma {:induction false} MatchingValuesOfRemoved(hs: seq<Header>, nameLower: Bytes, other: Bytes)
    ensures MatchingValues(Removed(hs, nameLower), nameLower) == []
    ensures other != nameLower ==> MatchingValues(Removed(hs, nameLower), other) == MatchingValues(hs, other)
    decreases |hs|
  {
    if hs != [] {
      var init := hs[..|hs| - 1];
      var h := hs[|hs| - 1];
      var kept := if HasName(h, nameLower) then [] else [h];
      assert Removed(hs, nameLower) == Removed(init, nameLower) + kept;
      MatchingValuesOfRemoved(init, nameLower, other);
      MatchingValuesAppend(Removed(init, nameLower), kept, nameLower);
      MatchingValuesAppend(Removed(init, nameLower), kept, other);
      assert [h][..0] == [];
      assert MatchingValues(kept, nameLower) == [];
      if other != nameLower {
        assert MatchingValues(kept, other) == if HasName(h, other) then [h.value] else [];
      }
    }
  }

  /** The new headers hold exactly the new values under their own name, and none under another. */
  lemma {:induction false} MatchingValuesOfAppended(name: Bytes, values: seq<Bytes>, other: Bytes)
    ensures MatchingValues(Appended(name, values), Lower(name)) == values
    ensures other != Lower(name) ==> MatchingValues(Appended(name, values), other) == []
    decreases |values|
  {
    if values != [] {
      assert Appended(name, values)[..|values| - 1] == Appended(name, values[..|values| - 1]);
      MatchingValuesOfAppended(name, values[..|values| - 1], other);
      assert values[..|values| - 1] + [values[|values| - 1]] == values;
    }
  }

  /** When f maps each element to itself alone, FlatMap is the identity. */
  lemma {:induction false} FlatMapSingletons<A>(xs: seq<A>, f: A -> seq<A>)
    requires forall k | 0 <= k < |xs| :: f(xs[k]) == [xs[k]]
    ensures FlatMap(xs, f) == xs
    decreases |xs|
  {
    if xs != [] {
      FlatMapSingletons(xs[..|xs| - 1], f);
    }
  }

  /** Values that are already single tokens come back unchanged, one each. */
  lemma TokensOfTokens(values: seq<Bytes>, lowercase: bool)
    requires forall k | 0 <= k < |values| :: IsToken(values[k], lowercase)
    ensures FlatMap(values, Tokenizer(lowercase)) == values
  {
    forall k | 0 <= k < |values| ensures Tokenizer(lowercase)(values[k]) == [values[k]] {
      ValueTokensOfToken(values[k], lowercase);
    }
    FlatMapSingletons(values, Tokenizer(lowercase));
  }

  /** A value that is a single token is that one token. */
  lemma ValueTokensOfToken(t: Bytes, lowercase: bool)
    requires IsToken(t, lowercase)
    ensures ValueTokens(t, lowercase) == [t]
  {
    assert Join([t], Comma) == t;
    ValueTokensOfJoin([t], lowercase);
  }

  /**
   * Reading back after a replacement: under the replaced name the list now
   * yields exactly the tokens of the new values, in order (the values
   * themselves when each is a single token); under every other name it
   * yields what it did before.
   */
  lemma GetAfterSet(hs: seq<Header>, name: Bytes, values: seq<Bytes>, other: Bytes, lowercase: bool)
    ensures CommaValues(Replaced(hs, name, values), Lower(name), lowercase) == FlatMap(values, Tokenizer(lowercase))
    ensures (forall k | 0 <= k < |values| :: IsToken(values[k], lowercase)) ==>
      CommaValues(Replaced(hs, name, values), Lower(name), lowercase) == values
    ensures other != Lower(name) ==>
      CommaValues(Replaced(hs, name, values), other, lowercase) == CommaValues(hs, other, lowercase)
  {
    MatchingValuesOfReplaced(hs, name, values, other);
    if forall k | 0 <= k < |values| :: IsToken(values[k], lowercase) {
      TokensOfTokens(values, lowercase);
    }
  }

  /** The values the replaced list holds: the new ones under the name, the old ones under any other. */
  lemma MatchingValuesOfReplaced(hs: seq<Header>, name: Bytes, values: seq<Bytes>, other: Bytes)
    ensures MatchingValues(Replaced(hs, name, values), Lower(name)) == values
    ensures other != Lower(name) ==> MatchingValues(Replaced(hs, name, values), other) == MatchingValues(hs, other)
  {
    var n := Lower(name);
    var kept := Removed(hs, n);
    var added := Appended(name, values);
    MatchingValuesAppend(kept, added, n);
    MatchingValuesAppend(kept, added, other);
    MatchingValuesOfRemoved(hs, n, other);
    MatchingValuesOfAppended(name, values, other);
  }

  /**
   * The shape of the replaced list: the surviving entries first, none of
   * them matching the name, then one `(name, v)` per new value, in order.
   */
  lemma ReplacedShape(hs: seq<Header>, name: Bytes, values: seq<Bytes>)
    ensures |Replaced(hs, name, values)| == |Removed(hs, Lower(name))| + |values|
    ensures forall k | 0 <= k < |values| ::
      Replaced(hs, name, values)[|Removed(hs, Lower(name))| + k] == Header(name, values[k])
    ensures forall j | 0 <= j < |Removed(hs, Lower(name))| ::
      Replaced(hs, name, values)[j] in hs && !HasName(Replaced(hs, name, values)[j], Lower(name))
  {
    forall k | 0 <= k < |values| ensures Replaced(hs, name, values)[|Removed(hs, Lower(name))| + k] == Header(name, values[k]) {
      AddedEntry(hs, name, values, k);
    }
    forall j | 0 <= j < |Removed(hs, Lower(name))|
      ensures Replaced(hs, name, values)[j] in hs && !HasName(Replaced(hs, name, values)[j], Lower(name))
    {
      KeptEntry(hs, name, values, j);
    }
  }

  /** The entries after the surviving ones are the new headers, in the order of the values. */
  lemma AddedEntry(hs: seq<Header>, name: Bytes, values: seq<Bytes>, k: nat)
    requires k < |values|
    ensures Replaced(hs, name, values)[|Removed(hs, Lower(name))| + k] == Header(name, values[k])
  {
    var kept := Removed(hs, Lower(name));
    assert Replaced(hs, name, values)[|kept| + k] == Appended(name, values)[k];
  }

  /** An entry of the new list before the appended ones comes from the old list and does not match the name. */
  lemma KeptEntry(hs: seq<Header>, name: Bytes, values: seq<Bytes>, j: nat)
    requires j < |Removed(hs, Lower(name))|
    ensures Replaced(hs, name, values)[j] in hs && !HasName(Replaced(hs, name, values)[j], Lower(name))
  {
    var kept := Removed(hs, Lower(name));
    RemovedMember(hs, Lower(name), kept[j]);
    assert Replaced(hs, name, values)[j] == kept[j];
  }

  /** Replacing twice with the same values is the same as replacing once. */
  lemma ReplacedIdempotent(hs: seq<Header>, name: Bytes, values: seq<Bytes>)
    ensures Replaced(Replaced(hs, name, values), name, values) == Replaced(hs, name, values)
  {
    var n := Lower(name);
    var kept := Removed(hs, n);
    var added := Appended(name, values);
    assert Replaced(hs, name, values) == kept + added;
    RemovedAppend(kept, added, n);
    RemovedNothing(kept, n);
    RemovedAll(name, values);
    assert Removed(kept + added, n) == kept;
  }

  /** Every new header matches its own name, so removal takes all of them. */
  lemma {:induction false} RemovedAll(name: Bytes, values: seq<Bytes>)
    ensures Removed(Appended(name, values), Lower(name)) == []
    decreases |values|
  {
    if values != [] {
      assert Appended(name, values)[..|values| - 1] == Appended(name, values[..|values| - 1]);
      RemovedAll(name, values[..|values| - 1]);
    }
  }

  /**
   * The caller's header list, which set_comma_header rewrites in place
   * (`headers[:] = new_headers`); every holder of the object sees the change.
   */
  class HeaderList {
    var headers: seq<Header>

    constructor (hs: seq<Header>)
      ensures headers == hs
    {
      headers := hs;
    }

    /**
     * set_comma_header: drops every entry whose name matches `name` up to
     * case, keeping the others in order, then appends `(name, v)` for each
     * new value. No validation is applied to the new entries.
     */
    method SetCommaHeader(name: Bytes, newValues: seq<Bytes>)
      modifies this
      ensures headers == Replaced(old(headers), name, newValues)
    {
      var nameLower := Lower(name);
      var newHeaders: seq<Header> := [];
      for i := 0 to |headers|
        invariant newHeaders == Removed(headers[..i], nameLower)
      {
        assert headers[..i + 1][..i] == headers[..i];
        var found := headers[i];
        if Lower(found.name) != nameLower {
          newHeaders := newHeaders + [Header(found.name, found.value)];
        }
      }
      assert headers[..|headers|] == headers;
      for k := 0 to |newValues|
        invariant newHeaders == Removed(headers, nameLower) + Appended(name, newValues[..k])
      {
        assert Appended(name, newValues[..k + 1]) == Appended(name, newValues[..k]) + [Header(name, newValues[k])];
        newHeaders := newHeaders + [Header(name, newValues[k])];
      }
      assert newValues[..|newValues|] == newValues;
      headers := newHeaders;
    }
  }
}
