# Claims validation and claims merging of a JWT library, in Dafny

This project models the claims logic of a Go JSON Web Token library
(`claims.go`): the standard claims record, the temporal acceptance check
`validateClaims`, and `Merge`, which flattens two marshalled JSON objects into
one by splicing bytes. It proves what the two operations do for every input.

- `wrappers.dfy` (module `Wrappers`): `Option` and `Result`.
- `claims.dfy` (module `JwtClaims`): the `Claims` datatype (the three `int64`
  timestamps `nbf`, `iat` and `exp`, plus `jti`, `iss`, `sub` and `aud`, which
  the check never reads), the rounding of the supplied instant to whole Unix
  seconds, the check itself, and an order-independent description (`Admits`).
  There is also a reference definition: an ordered list of rules where the
  first violated rule decides the result (`FirstViolation`).
- `merge.dfy` (module `JwtMerge`): `Merged`, the function that specifies the
  result of `Merge`; the method `Merge`, which follows the source's steps; and
  lemmas about merging two JSON objects.

Time is an integer count of nanoseconds since the Unix epoch, supplied by the
caller. `now` is `(t + 500_000_000) / 1_000_000_000`. This is Go's
`Round(time.Second)`, where a remainder of exactly half a second rounds up,
followed by `Unix()`. Note that `Round` rounds to the nearest second rather
than truncating. So, once the nbf and iat checks pass, a token is Expired from
half a second after its expiry second onwards. It also passes the nbf check
from half a second before its not-before second (`ExpiryHalfSecondRounding`,
`NotBeforeHalfSecondRounding`).

The marshaller is an input: each operand of `Merge` arrives already marshalled
as a `Result<seq<byte>, MarshalError>`. `None` stands for the explicit
`return nil` on a marshal failure. When the second output is empty, the first
output is returned as `Some(...)`, even when it is zero-length (`Some([])`);
Go returns that slice as it is, nil or not.
Only a zero-length second output passes through; an output of `{}` does not.
So a second operand that marshals to `{}` leaves a trailing comma, and a first
operand that marshals to `{}` leaves a leading one.
When either output has a single byte, the comma takes that byte's place, so
the first-byte and last-byte facts in `Merged` are stated for outputs of at
least two bytes.

## Model

| member | source | states |
|---|---|---|
| `JwtClaims.UnixSeconds` | claims.go:58 | `now` is the whole second nearest the instant: `now` s − 0.5 s ≤ t < `now` s + 0.5 s, so half a second rounds up |
| `JwtClaims.UnixSecondsOfParts` | claims.go:58 | an instant of s seconds plus f nanoseconds (0 ≤ f < 10^9) is judged as s+1 exactly when f ≥ 0.5 s, and as s otherwise |
| `JwtClaims.UnixSecondsMonotonic` | claims.go:58 | rounding never reorders two instants |
| `JwtClaims.ValidateClaims` | claims.go:57-79 | the result is `nil` (Ok) exactly when every asserted (> 0) nbf and iat is ≤ `now` and an asserted exp is ≥ `now` |
| `JwtClaims.FirstViolationIsEarliest` | claims.go:57-79 | for an ordered list of guarded checks, the result is Ok exactly when no check is violated; otherwise it is the error of the earliest violated check |
| `JwtClaims.ValidateClaimsIsFirstViolation` | claims.go:57-79 | validateClaims equals the first violation of the checks nbf→NotValidYet, iat→IssuedInTheFuture, exp→Expired, in that order |
| `JwtClaims.NoTimestampsAlwaysOk` | claims.go:60-76 | when nbf, iat and exp are all ≤ 0, every instant gives `nil` |
| `JwtClaims.NotBeforeComesFirst` | claims.go:60-64 | ErrNotValidYet is returned exactly when nbf > 0 and `now` < nbf, whatever iat and exp hold |
| `JwtClaims.IssuedInTheFutureOnlyAfterNotBefore` | claims.go:60-70 | ErrIssuedInTheFuture is returned exactly when the nbf check passed and iat > 0 and `now` < iat |
| `JwtClaims.ExpiredOnlyAfterEarlierChecks` | claims.go:60-76 | ErrExpired is returned exactly when the nbf and iat checks passed and exp > 0 and `now` > exp |
| `JwtClaims.StringClaimsIgnored` | claims.go:57-79 | replacing jti, iss, sub and aud never changes the result |
| `JwtClaims.InclusiveBoundaries` | claims.go:60-76 | at the nbf second and the iat second those checks pass, one second before nbf gives ErrNotValidYet, and one second before iat gives ErrIssuedInTheFuture when nbf ≤ iat − 1; at the exp second the exp check passes |
| `JwtClaims.ExpiredOneSecondAfter` | claims.go:72-76 | one whole second after exp the result is ErrExpired, once nbf and iat are not later than exp + 1 |
| `JwtClaims.ExpiryHalfSecondRounding` | claims.go:58-76 | exp + 0.5 s is already ErrExpired; exp + 0.5 s − 1 ns is still `nil` (nbf, iat ≤ exp) |
| `JwtClaims.NotBeforeHalfSecondRounding` | claims.go:58-64 | nbf − 0.5 s already passes the nbf check; nbf − 0.5 s − 1 ns gives ErrNotValidYet |
| `JwtClaims.AcceptedInstantsAreConvex` | claims.go:57-79 | every instant between two accepted instants is accepted |
| `JwtClaims.ExpiredPersists` | claims.go:57-79 | an instant judged ErrExpired stays ErrExpired at every later instant |
| `JwtClaims.NotValidYetPersistsBackwards` | claims.go:57-79 | an instant judged ErrNotValidYet makes every earlier instant ErrNotValidYet |
| `JwtMerge.Merged` | claims.go:96-117 | nil exactly when either marshal fails; the first output unchanged when the second is empty; otherwise length \|a\|+\|b\|−1, exactly a without its last byte, then a comma, then b without its first byte; so the first byte of a kept (when \|a\| ≥ 2) and the last byte of b kept (when \|b\| ≥ 2) |
| `JwtMerge.Merge` | claims.go:96-117 | the method that checks each marshal, reslices the two outputs and appends them returns exactly `Merged` of the two marshal results |
| `JwtMerge.MergedObjects` | claims.go:107-116 | merging the objects `{A}` and `{B}` gives `{A,B}` |
| `JwtMerge.MergeKeepsBothOccurrences` | claims.go:111-116 | no deduplication: a byte string found in both member lists occurs in the result at both shifted positions |
| `JwtMerge.EmptyObjectSecondLeavesTrailingComma` | claims.go:107-116 | a second operand marshalled to `{}` is not passed through: `{A}` merged with `{}` gives `{A,}` |
| `JwtMerge.EmptyObjectFirstLeavesLeadingComma` | claims.go:111-116 | `{}` merged with `{B}` gives `{,B}` |

## Left out

- rsa.go: a thin wrapper over the Go crypto library (signing, verification, hashing), with only a key type assertion of its own.
- Token encoding and decoding, and the signing algorithms: they are not part of this model.
- `Marshal`: JSON marshalling lives outside claims.go. Its two outputs are inputs to `Merged` and `Merge`.
- The clock and `time.Time` internals (wall and monotonic readings, time zones). The instant is an unbounded nanosecond count, so Go's saturation of `Round` and `Unix` at the edges of the `time.Time` range is not modelled.
- `Merge`'s panic when the first output is empty and the second is not is the precondition `SpliceDefined`, not a modelled outcome.
- `Merge`'s `append` may write the comma into the first output's backing array in place, because the resliced slice keeps its capacity. Aliasing is not modelled: the result is a value.
- The meaning of `aud` and the other string claims: the code never checks them.
