/**
 * The operations on Python `bytes` values that h11/headers.py relies on:
 * ASCII lower-casing (`bytes.lower`), whitespace stripping (`bytes.strip`),
 * splitting on a separator (`bytes.split`), the Content-Length digit check,
 * decimal parsing (`int`) and the lexicographic order of `bytes` (`<`).
 */
module Ascii {

  /** One octet. */
  type byte = b: int | 0 <= b < 256

  type Bytes = seq<byte>

  /** Text made only of ASCII characters, which encodes to bytes one-to-one. */
  predicate IsAsciiText(s: string) {
    forall i | 0 <= i < |s| :: s[i] as int < 128
  }

  /** The ASCII encoding of text: how the source's text literals and text names become bytes. */
  function Encode(s: string): (r: Bytes)
    requires IsAsciiText(s)
    ensures |r| == |s|
    ensures forall i | 0 <= i < |s| :: r[i] == s[i] as int
  {
    seq(|s|, i requires 0 <= i < |s| => s[i] as int)
  }

  const Comma: byte := 44

  /** Taking one more element of a sequence appends that element. */
  lemma TakeSnoc<T>(s: seq<T>, i: nat)
    requires i < |s|
    ensures s[..i + 1] == s[..i] + [s[i]]
  {
  }

  // ---------------------------------------------------------------------
  // Case

  predicate IsUpper(b: byte) { 65 <= b <= 90 }

  /** `bytes.lower` on one byte: only 'A'..'Z' change. */
  function LowerByte(b: byte): (r: byte)
    ensures !IsUpper(r)
    ensures IsUpper(b) ==> r == b + 32
    ensures !IsUpper(b) ==> r == b
  {
    if IsUpper(b) then b + 32 else b
  }

  /** `bytes.lower`. */
  function Lower(s: Bytes): (r: Bytes)
    ensures |r| == |s|
    ensures forall i | 0 <= i < |s| :: r[i] == LowerByte(s[i])
  {
    seq(|s|, i requires 0 <= i < |s| => LowerByte(s[i]))
  }

  /** A byte string that `bytes.lower` leaves unchanged. */
  predicate IsLower(s: Bytes) {
    forall i | 0 <= i < |s| :: !IsUpper(s[i])
  }

  lemma LowerIsLower(s: Bytes)
    ensures IsLower(Lower(s))
    ensures Lower(Lower(s)) == Lower(s)
    ensures IsLower(s) <==> Lower(s) == s
  {
    if IsLower(s) {
      assert Lower(s) == s;
    }
    if Lower(s) == s {
      forall i | 0 <= i < |s| ensures !IsUpper(s[i]) {
        assert Lower(s)[i] == s[i];
      }
    }
  }

  // ---------------------------------------------------------------------
  // Whitespace

  /** The bytes `bytes.strip()` removes: space, \t, \n, \v, \f and \r. */
  predicate IsSpace(b: byte) { b == 32 || 9 <= b <= 13 }

  /** Removes leading whitespace. */
  function TrimStart(s: Bytes): (r: Bytes)
    ensures |r| <= |s| && r == s[|s| - |r|..]
    ensures forall j | 0 <= j < |s| - |r| :: IsSpace(s[j])
    ensures r != [] ==> !IsSpace(r[0])
    decreases |s|
  {
    if s != [] && IsSpace(s[0]) then TrimStart(s[1..]) else s
  }

  /** Removes trailing whitespace. */
  function TrimEnd(s: Bytes): (r: Bytes)
    ensures |r| <= |s| && r == s[..|r|]
    ensures forall j | |r| <= j < |s| :: IsSpace(s[j])
    ensures r != [] ==> !IsSpace(r[|r| - 1])
    decreases |s|
  {
    if s != [] && IsSpace(s[|s| - 1]) then TrimEnd(s[..|s| - 1]) else s
  }

  /** The number of leading whitespace bytes of s. */
  function LeadingSpace(s: Bytes): (i: nat)
    ensures i <= |s|
  {
    |s| - |TrimStart(s)|
  }

  /**
   * `bytes.strip()`: the result is the slice of the input that starts after
   * its leading whitespace, every byte cut off on either side is
   * whitespace, and the result neither starts nor ends with whitespace.
   */
  function Strip(s: Bytes): (r: Bytes)
    ensures LeadingSpace(s) + |r| <= |s|
    ensures r == s[LeadingSpace(s)..LeadingSpace(s) + |r|]
    ensures forall j | 0 <= j < LeadingSpace(s) :: IsSpace(s[j])
    ensures forall j | LeadingSpace(s) + |r| <= j < |s| :: IsSpace(s[j])
    ensures r != [] ==> !IsSpace(r[0]) && !IsSpace(r[|r| - 1])
  {
    var t := TrimStart(s);
    var r := TrimEnd(t);
    assert r == s[|s| - |t|..|s| - |t| + |r|];
    r
  }

  /** Stripping leaves a byte string unchanged exactly when it does not start or end with whitespace. */
  lemma StripUnchanged(s: Bytes)
    ensures Strip(s) == s <==> (s == [] || (!IsSpace(s[0]) && !IsSpace(s[|s| - 1])))
  {
    if s != [] && !IsSpace(s[0]) && !IsSpace(s[|s| - 1]) {
      assert TrimStart(s) == s;
      assert TrimEnd(s) == s;
    }
  }

  predicate AllSpace(w: Bytes) {
    forall i | 0 <= i < |w| :: IsSpace(w[i])
  }

  lemma {:induction false} TrimStartSpaces(w: Bytes, x: Bytes)
    requires AllSpace(w)
    ensures TrimStart(w + x) == TrimStart(x)
    decreases |w|
  {
    var s := w + x;
    if w == [] {
      assert s == x;
    } else {
      assert s[0] == w[0] && s[1..] == w[1..] + x;
      assert TrimStart(s) == TrimStart(s[1..]);
      TrimStartSpaces(w[1..], x);
    }
  }

  lemma {:induction false} TrimEndSpaces(x: Bytes, w: Bytes)
    requires AllSpace(w)
    ensures TrimEnd(x + w) == TrimEnd(x)
    decreases |w|
  {
    var s := x + w;
    if w == [] {
      assert s == x;
    } else {
      assert s[|s| - 1] == w[|w| - 1] && s[..|s| - 1] == x + w[..|w| - 1];
      assert TrimEnd(s) == TrimEnd(s[..|s| - 1]);
      TrimEndSpaces(x, w[..|w| - 1]);
    }
  }

  /** Whitespace around a byte string that neither starts nor ends with whitespace is exactly what `strip` removes. */
  lemma StripPadded(before: Bytes, t: Bytes, after: Bytes)
    requires AllSpace(before) && AllSpace(after)
    requires t != [] ==> !IsSpace(t[0]) && !IsSpace(t[|t| - 1])
    ensures Strip(before + t + after) == t
  {
    assert before + t + after == before + (t + after);
    TrimStartSpaces(before, t + after);
    if t == [] {
      assert t + after == after + [];
      TrimStartSpaces(after, []);
    }
    TrimEndSpaces(t, after);
  }

  lemma StripIdempotent(s: Bytes)
    ensures Strip(Strip(s)) == Strip(s)
  {
    StripUnchanged(Strip(s));
  }

  // ---------------------------------------------------------------------
  // Splitting

  /**
   * `bytes.split(sep)`: the pieces between the occurrences of `sep`. There
   * is always at least one piece; an empty input gives one empty piece.
   */
  function Split(s: Bytes, sep: byte): (r: seq<Bytes>)
    ensures |r| >= 1
    ensures forall k | 0 <= k < |r| :: sep !in r[k]
    decreases |s|
  {
    if s == [] then [[]]
    else
      var rest := Split(s[1..], sep);
      if s[0] == sep then [[]] + rest
      else [[s[0]] + rest[0]] + rest[1..]
  }

  /** `sep.join(pieces)`, the inverse of Split. */
  function Join(pieces: seq<Bytes>, sep: byte): Bytes
  {
    if |pieces| == 0 then []
    else if |pieces| == 1 then pieces[0]
    else pieces[0] + [sep] + Join(pieces[1..], sep)
  }

  /** Joining the pieces again gives back the split input. */
  lemma {:induction false} JoinSplit(s: Bytes, sep: byte)
    ensures Join(Split(s, sep), sep) == s
    decreases |s|
  {
    if s != [] {
      var rest := Split(s[1..], sep);
      JoinSplit(s[1..], sep);
      if s[0] == sep {
        assert Split(s, sep) == [[]] + rest;
      } else {
        var r := Split(s, sep);
        assert r == [[s[0]] + rest[0]] + rest[1..];
        if |rest| == 1 {
          assert Join(r, sep) == [s[0]] + rest[0];
        } else {
          assert r[1..] == rest[1..];
          assert Join(rest, sep) == rest[0] + [sep] + Join(rest[1..], sep);
          assert Join(r, sep) == [s[0]] + rest[0] + [sep] + Join(rest[1..], sep);
        }
      }
    }
  }

  /** A byte string without the separator is a single piece. */
  lemma {:induction false} SplitWithoutSep(s: Bytes, sep: byte)
    requires sep !in s
    ensures Split(s, sep) == [s]
    decreases |s|
  {
    if s != [] {
      assert sep !in s[1..];
      SplitWithoutSep(s[1..], sep);
      assert [s[0]] + s[1..] == s;
    }
  }

  /** Splitting a piece followed by the separator peels that piece off. */
  lemma {:induction false} SplitCons(p: Bytes, sep: byte, t: Bytes)
    requires sep !in p
    ensures Split(p + [sep] + t, sep) == [p] + Split(t, sep)
    decreases |p|
  {
    if p == [] {
      assert p + [sep] + t == [sep] + t;
      assert ([sep] + t)[1..] == t;
    } else {
      var s := p + [sep] + t;
      assert s[1..] == p[1..] + [sep] + t;
      assert sep !in p[1..];
      SplitCons(p[1..], sep, t);
      assert [p[0]] + p[1..] == p;
    }
  }

  /** Splitting a join of separator-free pieces gives back the pieces. */
  lemma {:induction false} SplitJoin(pieces: seq<Bytes>, sep: byte)
    requires |pieces| >= 1
    requires forall k | 0 <= k < |pieces| :: sep !in pieces[k]
    ensures Split(Join(pieces, sep), sep) == pieces
    decreases |pieces|
  {
    if |pieces| == 1 {
      SplitWithoutSep(pieces[0], sep);
    } else {
      SplitJoin(pieces[1..], sep);
      SplitCons(pieces[0], sep, Join(pieces[1..], sep));
      assert [pieces[0]] + pieces[1..] == pieces;
    }
  }

  // ---------------------------------------------------------------------
  // Digits

  predicate IsDigit(b: byte) { 48 <= b <= 57 }

  predicate AllDigits(s: Bytes) {
    forall i | 0 <= i < |s| :: IsDigit(s[i])
  }

  /** The Content-Length pattern `^[0-9]+$`: one or more ASCII digits and nothing else. */
  predicate IsDigits(s: Bytes)
    ensures IsDigits(s) ==> Strip(s) == s != []
  {
    StripUnchanged(s);
    |s| > 0 && AllDigits(s)
  }

  /** A digit string has nothing for `lower`, `strip` or `split(b",")` to change. */
  lemma DigitsAreAtoms(s: Bytes)
    requires IsDigits(s)
    ensures Lower(s) == s
    ensures Strip(s) == s
    ensures Split(s, Comma) == [s]
  {
    LowerIsLower(s);
    StripUnchanged(s);
    assert forall i | 0 <= i < |s| :: s[i] != Comma;
    SplitWithoutSep(s, Comma);
  }

  function Pow10(k: nat): (p: nat)
    ensures p >= 1
  {
    if k == 0 then 1 else 10 * Pow10(k - 1)
  }

  /**
   * `int()` on a string of decimal digits: a value of k digits is below
   * 10^k, and it is zero exactly when every digit is `0`.
   */
  function ParseDecimal(s: Bytes): (n: nat)
    requires AllDigits(s)
    ensures n < Pow10(|s|)
    ensures n == 0 <==> forall i | 0 <= i < |s| :: s[i] == 48
    decreases |s|
  {
    if s == [] then 0
    else
      var init := s[..|s| - 1];
      assert forall i | 0 <= i < |init| :: init[i] == s[i];
      10 * ParseDecimal(init) + (s[|s| - 1] - 48)
  }

  /** The shortest decimal spelling of n (`str(n)`), the inverse of ParseDecimal. */
  function Decimal(n: nat): (s: Bytes)
    ensures IsDigits(s)
    ensures n >= 10 ==> s[0] != 48
    decreases n
  {
    if n < 10 then [48 + n] else Decimal(n / 10) + [48 + n % 10]
  }

  lemma {:induction false} ParseDecimalOfDecimal(n: nat)
    ensures ParseDecimal(Decimal(n)) == n
    decreases n
  {
    if n >= 10 {
      ParseDecimalOfDecimal(n / 10);
      var s := Decimal(n);
      assert s[..|s| - 1] == Decimal(n / 10);
    }
  }

  /** The last digit is the units digit, worth its face value; the ones before it count in tens. */
  lemma ParseDecimalLastDigit(s: Bytes)
    requires AllDigits(s) && s != []
    ensures ParseDecimal(s) % 10 == s[|s| - 1] - 48
    ensures ParseDecimal(s) / 10 == ParseDecimal(s[..|s| - 1])
  {
  }

  /** Leading zeros do not change the parsed value. */
  lemma {:induction false} ParseDecimalLeadingZero(s: Bytes)
    requires AllDigits(s)
    ensures AllDigits([48] + s) && ParseDecimal([48] + s) == ParseDecimal(s)
    decreases |s|
  {
    var z := [48] + s;
    if s != [] {
      assert z[..|z| - 1] == [48] + s[..|s| - 1];
      ParseDecimalLeadingZero(s[..|s| - 1]);
    } else {
      assert z[..|z| - 1] == [];
    }
  }

  // ---------------------------------------------------------------------
  // Order

  /**
   * `a < b` on Python bytes: lexicographic, and a proper prefix is smaller;
   * so nothing is below itself.
   */
  function LexLess(a: Bytes, b: Bytes): (r: bool)
    ensures r ==> a != b
    ensures |a| < |b| && a == b[..|a|] ==> r
    decreases |a|
  {
    if b == [] then false
    else if a == [] then true
    else if a[0] != b[0] then a[0] < b[0]
    else LexLess(a[1..], b[1..])
  }

  /**
   * `a` is below `b` at position k: they agree on their first k bytes, and
   * there `a` has ended while `b` goes on, or `a` has the smaller byte.
   */
  predicate BelowAt(a: Bytes, b: Bytes, k: nat) {
    k <= |a| && k < |b| && a[..k] == b[..k] && (k == |a| || a[k] < b[k])
  }

  /** The first position where two byte strings differ decides their order. */
  lemma {:induction false} LexLessFirstDifference(a: Bytes, b: Bytes)
    ensures LexLess(a, b) <==> exists k: nat :: BelowAt(a, b, k)
    decreases |a|
  {
    if b == [] {
    } else if a == [] {
      assert BelowAt(a, b, 0);
    } else if a[0] != b[0] {
      if a[0] < b[0] {
        assert BelowAt(a, b, 0);
      }
      forall k: nat | BelowAt(a, b, k) ensures a[0] < b[0] {
        if k > 0 {
          assert a[..k][0] == b[..k][0];
        }
      }
    } else {
      LexLessFirstDifference(a[1..], b[1..]);
      if LexLess(a, b) {
        var k: nat :| BelowAt(a[1..], b[1..], k);
        BelowAtShift(a, b, k);
      }
      forall k: nat | BelowAt(a, b, k) ensures LexLess(a, b) {
        BelowAtShift(a, b, k - 1);
      }
    }
  }

  /** Past an equal first byte, being below at k + 1 is being below at k in the rests. */
  lemma BelowAtShift(a: Bytes, b: Bytes, k: int)
    requires a != [] && b != [] && a[0] == b[0] && k >= -1
    ensures k >= 0 ==> (BelowAt(a, b, k + 1) <==> BelowAt(a[1..], b[1..], k))
    ensures k == -1 ==> !BelowAt(a, b, 0)
  {
    if k >= 0 && k + 1 <= |a| && k + 1 <= |b| {
      assert a[..k + 1] == [a[0]] + a[1..][..k];
      assert b[..k + 1] == [b[0]] + b[1..][..k];
    }
  }

  // The comparison is a strict total order, so "below 1.1" is well defined.

  lemma {:induction false} LexLessTransitive(a: Bytes, b: Bytes, c: Bytes)
    requires LexLess(a, b) && LexLess(b, c)
    ensures LexLess(a, c)
    decreases |a|
  {
    if a != [] && a[0] == b[0] && b[0] == c[0] {
      LexLessTransitive(a[1..], b[1..], c[1..]);
    }
  }

  /** Any two different byte strings are ordered one way or the other. */
  lemma {:induction false} LexLessTotal(a: Bytes, b: Bytes)
    requires a != b
    ensures LexLess(a, b) || LexLess(b, a)
    decreases |a|
  {
    if a != [] && b != [] && a[0] == b[0] {
      assert a == [a[0]] + a[1..] && b == [b[0]] + b[1..];
      LexLessTotal(a[1..], b[1..]);
    }
  }
}
