# h11 header handling, modelled in Dafny

This project models `h11/headers.py` from the h11 HTTP/1.1 library. That file holds the header-list logic that sits under h11's request and response events:

- `normalize_and_validate` checks an ordered list of `(name, value)` byte pairs. It rejects:
  - names with surrounding whitespace;
  - duplicate or non-numeric `Content-Length` headers;
  - duplicate or non-`chunked` `Transfer-Encoding` headers.

  If none of these apply, it returns the list unchanged.
- `get_comma_header` collects the comma-separated tokens of every header whose name matches case-insensitively.
- `set_comma_header` replaces those headers in the caller's list, in place.
- `framing_headers` decides how a message body is delimited. Transfer-Encoding wins over Content-Length.
- `has_expect_100_continue` decides whether a request asks for a `100 Continue` response.

The project has five modules:

- `Wrappers` (`wrappers.dfy`) holds `Option` and `Result`.
- `Ascii` (`ascii.dfy`) models the Python `bytes` operations the file relies on:
  - `lower`, which changes only `A`..`Z`;
  - `strip`, which removes bytes 9..13 and 32;
  - `split(b",")`, which always yields at least one piece;
  - the `^[0-9]+$` Content-Length pattern;
  - `int()` on digit strings;
  - the lexicographic `<` on `bytes`.
- `Headers` (`headers.dfy`) covers the header record, the error cases and `normalize_and_validate`.
- `CommaHeaders` (`comma.dfy`) covers `get_comma_header` and `set_comma_header`. `set_comma_header` works through the class `HeaderList`, whose `headers` field plays the caller's list that `headers[:] = ...` overwrites.
- `Framing` (`framing.dfy`) covers `framing_headers` and `has_expect_100_continue`.

Each loop of the source is a method with a `for` loop. Each method is proved against a specification function:

| method | specification function |
|---|---|
| `NormalizeAndValidate` | `Normalized` |
| `GetCommaHeader` | `CommaValues` |
| `SetCommaHeader` | `Replaced` |

The properties the file promises are lemmas about those functions.

Header values are not stripped. The comment at `h11/headers.py:21` says that values get leading and trailing whitespace stripped, but `normalize_and_validate` never does so: lines 49 and 74 keep the value as it is. The model follows the code. `NormalizeAndValidate` returns its input unchanged.

## Model

| member | source | states |
|---|---|---|
| Ascii.Lower | h11/headers.py:50 | `bytes.lower` keeps the length and maps each byte on its own: `A`..`Z` move to `a`..`z` and every other byte is kept |
| Ascii.LowerIsLower | h11/headers.py:70 | the lower-cased form has no upper-case byte, lower-casing twice is the same as once, and a string is unchanged by it exactly when it has no upper-case byte |
| Ascii.Strip | h11/headers.py:59 | `bytes.strip` returns a contiguous slice of its input; every byte cut off on either side is ASCII whitespace and the result neither starts nor ends with whitespace |
| Ascii.StripUnchanged | h11/headers.py:59 | `name.strip() != name` holds exactly when the name is non-empty and starts or ends with whitespace |
| Ascii.StripPadded | h11/headers.py:120 | `strip` removes exactly the whitespace around a byte string that neither starts nor ends with whitespace, for any amount of padding on either side |
| Ascii.StripIdempotent | h11/headers.py:120 | stripping a stripped token changes nothing |
| Ascii.Split | h11/headers.py:119 | `split(b",")` yields at least one piece and no piece contains a comma |
| Ascii.JoinSplit | h11/headers.py:119 | joining the pieces of a split with the separator gives the input back, so splitting loses no bytes |
| Ascii.SplitJoin | h11/headers.py:119 | splitting a join of comma-free pieces gives the pieces back |
| Ascii.IsDigits | h11/headers.py:41 | the Content-Length pattern `^[0-9]+$`: a matching value is non-empty and has no surrounding whitespace for `strip` to remove |
| Ascii.DigitsAreAtoms | h11/headers.py:41 | a value that matches the Content-Length pattern (non-empty, only `0`..`9`) is unchanged by `lower` and `strip` and splits into itself alone |
| Ascii.Decimal | h11/headers.py:157 | the decimal spelling of a number matches the Content-Length pattern and has no leading zero |
| Ascii.ParseDecimal | h11/headers.py:157 | `int()` of a digit string: a value of k digits is below 10^k, and it is zero exactly when every digit is `0` |
| Ascii.ParseDecimalOfDecimal | h11/headers.py:157 | `int()` of the decimal spelling of n is n |
| Ascii.ParseDecimalLastDigit | h11/headers.py:157 | `int()` is base ten: the value modulo 10 is the face value of the last digit, and the value divided by 10 is the value of the digits before it |
| Ascii.ParseDecimalLeadingZero | h11/headers.py:157 | leading zeros in a Content-Length do not change its value |
| Ascii.LexLess | h11/headers.py:165 | bytes `<`: a version is never below itself (so `1.1` is not below `1.1`), and a proper prefix is below every extension of it |
| Ascii.LexLessFirstDifference | h11/headers.py:165 | bytes `<` is decided at the first position where the two strings differ: `a` is below `b` exactly when, after a common prefix, `a` ends while `b` goes on or `a` has the smaller byte |
| Ascii.LexLessTransitive | h11/headers.py:165 | the byte order used for the version comparison is transitive |
| Ascii.LexLessTotal | h11/headers.py:165 | any two different versions are ordered one way or the other |
| Headers.ConstantsSpelling | h11/headers.py:61-70 | the constants are the source's `b"content-length"`, `b"transfer-encoding"` and `b"chunked"` |
| Headers.ContentLengthIsNotTransferEncoding | h11/headers.py:61-66 | no header is treated both as a Content-Length and as a Transfer-Encoding |
| Headers.EntryError | h11/headers.py:59-73 | the checks on one entry, in the source's order. The name error is raised exactly when stripping changes the name. There is no error exactly when the name is stripped, a Content-Length is the first one and all digits, and a Transfer-Encoding is the first one and lower-cases to `chunked` |
| Headers.NormalizedSnoc | h11/headers.py:47-74 | appending an entry keeps a list valid exactly when the entry passes its checks, given what came before it |
| Headers.NormalizedPrefix | h11/headers.py:43-75 | every prefix of a valid list is valid |
| Headers.FailsFirstAtNotNormalized | h11/headers.py:59-73 | a list with an entry that fails its checks is not valid. This covers a leading or trailing space in a name, a second Content-Length even with the same value, a non-digit or empty Content-Length, a second Transfer-Encoding, and a Transfer-Encoding other than `chunked` |
| Headers.AcceptedIsNormalized | h11/headers.py:47-74 | the loop reading (each entry passes given the entries before it) is equivalent to the whole-list invariants: names stripped, at most one Content-Length and it is all digits, at most one Transfer-Encoding and it is `chunked` up to case |
| Headers.AcceptedSnoc | h11/headers.py:47-74 | an entry that passes its checks extends a list that passed so far |
| Headers.RejectStep | h11/headers.py:59-73 | the first entry that fails is where the loop raises, and the whole list is then invalid |
| Headers.NormalizeAndValidate | h11/headers.py:43-75 | it succeeds exactly when the list is valid. On success it returns the input unchanged: same length, same order, names' case kept, values not stripped. On failure the error is the one raised by the first entry that fails, with all entries before it having passed |
| CommaHeaders.FlatMapAppend | h11/headers.py:114-122 | the tokens of two lists of values put together are the tokens of the first list followed by those of the second |
| CommaHeaders.FlatMapMember | h11/headers.py:114-122 | a token is collected exactly when one of the values yields it |
| CommaHeaders.MatchingValues | h11/headers.py:114-116 | the values of the headers whose name matches up to case; the number of collected values plus the number of entries the removal of set_comma_header keeps is the length of the list |
| CommaHeaders.MatchingValuesAppend | h11/headers.py:114-116 | the matching headers of a concatenation are the first part's followed by the second's |
| CommaHeaders.MatchingValuesMember | h11/headers.py:114-116 | a value is collected exactly when some header with a matching name carries it |
| CommaHeaders.MatchingValuesNone | h11/headers.py:114-116 | when no name matches, no value is collected |
| CommaHeaders.MatchingValuesOne | h11/headers.py:114-116 | when exactly one header matches, its value alone is collected |
| CommaHeaders.ValueTokens | h11/headers.py:117-122 | every token taken from one value is non-empty, comma-free and stripped, and lower-case when `lowercase` is set; `ValueTokensMember` gives the converse: every non-empty stripped piece is among them |
| CommaHeaders.PieceTokensAppend | h11/headers.py:119-122 | the tokens of a concatenation of pieces are the tokens of the first part followed by those of the second, so tokens keep the order of their pieces |
| CommaHeaders.PieceTokensSingle | h11/headers.py:120-122 | one piece yields its stripped form, or nothing when that is empty |
| CommaHeaders.PieceTokensMember | h11/headers.py:119-122 | a byte string is a token of the pieces exactly when it is non-empty and is one of the pieces after stripping |
| CommaHeaders.ValueTokensMember | h11/headers.py:117-122 | a byte string is a token of a value exactly when it is non-empty and is one of the comma-separated pieces of the (lower-cased on request) value after stripping: padded pieces are kept stripped, only empty or all-whitespace pieces are dropped |
| CommaHeaders.PieceTokensAreTokens | h11/headers.py:119-122 | stripping comma-free pieces and dropping the empty ones leaves tokens |
| CommaHeaders.StripPieceIsToken | h11/headers.py:120-121 | a non-empty stripped piece of a split is a token |
| CommaHeaders.SplitPiecesFrom | h11/headers.py:117-119 | every byte of a piece of a split value comes from the value, so the pieces of a lower-case value are lower-case |
| CommaHeaders.PieceTokensOfTokens | h11/headers.py:119-122 | pieces that are already tokens are kept as they are, in order |
| CommaHeaders.JoinIsLower | h11/headers.py:117-119 | a comma-join of lower-case tokens is lower-case |
| CommaHeaders.ValueTokensOfJoin | h11/headers.py:117-122 | round trip: the tokens of the comma-join of any list of tokens are those tokens, and no tokens join to a value with none |
| CommaHeaders.ValueTokensOfToken | h11/headers.py:117-122 | a single token is read back as itself |
| CommaHeaders.CommaValuesMember | h11/headers.py:112-123 | a token is returned exactly when some header whose lower-cased name matches yields it from its value; headers with another name contribute nothing |
| CommaHeaders.CommaValuesEmpty | h11/headers.py:112-123 | the result is empty exactly when no matching header yields a token |
| CommaHeaders.CommaValuesNone | h11/headers.py:112-123 | with no matching header the result is empty |
| CommaHeaders.CommaValuesOne | h11/headers.py:112-123 | with one matching header the result is the tokens of its value |
| CommaHeaders.CommaValuesAreTokens | h11/headers.py:112-123 | every returned token is non-empty, comma-free, stripped, and lower-case when asked |
| CommaHeaders.CommaValuesAppend | h11/headers.py:114-122 | tokens come in header order: the tokens of a concatenation are the first part's followed by the second's |
| CommaHeaders.GetCommaHeader | h11/headers.py:77-123 | the loop returns exactly the specified tokens in header order, then in order within each value, and each of them is a token |
| CommaHeaders.AppendPieceTokens | h11/headers.py:119-122 | the inner loop appends the non-empty stripped pieces, in order, to what was collected before |
| CommaHeaders.Appended | h11/headers.py:133-134 | one new entry `(name, v)` per new value, in the order of the values, with the name as given |
| CommaHeaders.Removed | h11/headers.py:130-132 | the entries of the old list whose name does not match up to case: never longer than the old list, and none of them matches |
| CommaHeaders.RemovedAppend | h11/headers.py:130-132 | the removal loop filters each part of a list independently |
| CommaHeaders.RemovedMember | h11/headers.py:130-132 | an entry survives removal exactly when it was in the list and its name does not match up to case |
| CommaHeaders.RemovedNothing | h11/headers.py:130-132 | a list with no matching entry survives removal whole |
| CommaHeaders.RemovedAll | h11/headers.py:130-134 | the appended entries are all removed by a second call with the same name |
| CommaHeaders.MatchingValuesOfRemoved | h11/headers.py:130-132 | after removal no entry matches the name, and the values under any other name are unchanged |
| CommaHeaders.MatchingValuesOfAppended | h11/headers.py:133-134 | the appended entries carry exactly the new values under the name, and nothing under any other name |
| CommaHeaders.TokensOfTokens | h11/headers.py:117-122 | values that are each a single token read back as themselves |
| CommaHeaders.GetAfterSet | h11/headers.py:126-135 | after `set_comma_header(name, vs)`, `get_comma_header(name)` returns the tokens of `vs` in order, which are `vs` itself when each is a token, and `get_comma_header` of any other name is unchanged |
| CommaHeaders.ReplacedShape | h11/headers.py:126-135 | the new list is the kept entries followed by exactly `len(vs)` entries `(name, v)` in the order of `vs`; each kept entry comes from the old list and does not match the name |
| CommaHeaders.KeptEntry | h11/headers.py:130-132 | each entry of the new list before the appended ones comes from the old list and does not match the name up to case |
| CommaHeaders.ReplacedIdempotent | h11/headers.py:126-135 | setting the same values twice is the same as setting them once |
| CommaHeaders.HeaderList.SetCommaHeader | h11/headers.py:126-135 | the object's list becomes its old non-matching entries, in their order, followed by one `(name, v)` per new value |
| Framing.NamesSpelling | h11/headers.py:150-169 | the constants spell the source's literals `Transfer-Encoding`, `Content-Length`, `Expect`, `100-continue` and `1.1` |
| Framing.TransferEncodingNameLowered | h11/headers.py:113 | `get_comma_header` looks `Transfer-Encoding` up as `transfer-encoding` |
| Framing.ContentLengthNameLowered | h11/headers.py:113 | `get_comma_header` looks `Content-Length` up as `content-length` |
| Framing.ExpectNameLowered | h11/headers.py:113 | `get_comma_header` looks `Expect` up as `expect` |
| Framing.FramingHeaders | h11/headers.py:137-159 | the assert and the `int()` conversion are its precondition. At most one of the two results is set. The Transfer-Encoding result is `chunked` whenever it is set, and it is set exactly when some Transfer-Encoding header yields a token. Both are unset exactly when no Transfer-Encoding or Content-Length header yields a token |
| Framing.ChunkedIsToken | h11/headers.py:150-152 | `chunked` is one lower-case token |
| Framing.DigitsAreToken | h11/headers.py:155-157 | a validated Content-Length value is one token |
| Framing.ChunkedValueTokens | h11/headers.py:150-152 | a Transfer-Encoding value that passed validation yields the single token `chunked` |
| Framing.OnlyMatch | h11/headers.py:62-63 | in a list with at most one header of a name, the one that has it is the only one |
| Framing.TransferEncodingsOfNormalized | h11/headers.py:150-152 | on a validated list the Transfer-Encoding tokens are `[chunked]` when the header is present and empty otherwise, so the assert holds |
| Framing.ContentLengthsOfNormalized | h11/headers.py:155-157 | on a validated list the Content-Length tokens are the single header's value, or empty when there is none |
| Framing.FramingOfNormalized | h11/headers.py:137-159 | a validated list meets the precondition. With a Transfer-Encoding the framing is (`chunked`, none). Otherwise, with a Content-Length it is (none, its decimal value). With neither it is (none, none) |
| Framing.HasExpect100Continue | h11/headers.py:161-169 | false whenever the version is below `1.1` byte-wise. Otherwise true exactly when some Expect header yields the exact token `100-continue` without lower-casing |
| Framing.ExpectSingleToken | h11/headers.py:167-169 | for a version of at least `1.1` with one Expect header holding one token, the answer is whether that token equals `100-continue` byte for byte |
| Framing.ExpectHonoured | h11/headers.py:161-169 | `Expect: 100-continue` on HTTP/1.1 gives true |
| Framing.ExpectPaddedHonoured | h11/headers.py:161-169 | `Expect` with `100-continue` surrounded by any whitespace on HTTP/1.1 gives true, since the token is stripped when read |
| Framing.ExpectIgnoredOnHttp10 | h11/headers.py:165-166 | the same header on HTTP/1.0 gives false |
| Framing.Continue100CapitalisedIsToken | h11/headers.py:167-169 | `100-Continue` is a single token and differs from `100-continue` |
| Framing.ExpectCaseSensitive | h11/headers.py:167-169 | `Expect: 100-Continue` on HTTP/1.1 gives false |

## Left out

- `bytesify`, `validate` and `ProtocolError` live in `h11/util.py`, which is not part of this model.
  - Names and values are taken as bytes already, so `bytesify` is the identity.
  - The text names the source passes, such as `"Transfer-Encoding"`, appear as byte constants. `NamesSpelling` ties them to their ASCII spelling.
  - `ProtocolError` is the `HeaderError` variant of the raise site. The message text is not modelled.
- The regular expression `^[0-9]+$` at line 41 is read as "non-empty and every byte is `0`..`9`". Python's `re.match` would also let `$` match before one trailing newline. How `validate` applies the pattern is not visible, so that case is not modelled.
- Framing.FramingHeaders: Python's `int()` also accepts signs, underscores and surrounding whitespace. The model parses digit strings only, and its precondition demands that the first Content-Length token be all digits. Whatever `int()` does beyond that, including raising, is not modelled.
- `get_comma_header` splits on every comma, with no quoted strings. The source documents this as a known limitation that is harmless for its callers, so it is modelled as written.
- CommaHeaders.GetCommaHeader: the source's inner loop over the split pieces is the separate method `AppendPieceTokens`. The behaviour is the same; only the loop's place differs.
- CommaHeaders.HeaderList.SetCommaHeader: the caller's Python list is the `headers` field of one object. Aliasing of that list by other references is not modelled.
- The `request` object is reduced to its HTTP version and its header list. Its other attributes, the validation in `events.py` and the connection state machine are not part of this model.
