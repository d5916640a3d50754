/**
 * `Merge` of claims.go: two values are marshalled to JSON and the two
 * objects are flattened into one by splicing bytes. The marshaller is not
 * part of this model; its two outputs are the inputs here.
 */
module JwtMerge {
  import opened Wrappers

  newtype byte = x: int | 0 <= x < 256

  const OpenBrace: byte := 0x7B   // '{'
  const CloseBrace: byte := 0x7D  // '}'
  const Comma: byte := 0x2C       // ','

  /** Why `Marshal` failed; `Merge` discards it. */
  datatype MarshalError = MarshalError(message: string)

  type Marshaled = Result<seq<byte>, MarshalError>

  /**
   * What the source needs to run without a panic: when both operands
   * marshal and the second output is non-empty, the first output must be
   * non-empty, or `claimsB[0 : len(claimsB)-1]` is out of range.
   */
  predicate SpliceDefined(claims: Marshaled, other: Marshaled) {
    claims.Success? && other.Success? && |other.value| > 0 ==> |claims.value| > 0
  }

  /**
   * What `Merge` returns: `None` (its explicit `return nil`) when either
   * operand fails to marshal; the first output as it is, nil or not, when the
   * second is empty;
   * otherwise the first output without its last byte, a comma, and the
   * second output without its first byte.
   */
  function Merged(claims: Marshaled, other: Marshaled): (r: Option<seq<byte>>)
    requires SpliceDefined(claims, other)
    ensures r.None? <==> claims.Failure? || other.Failure?
    ensures r.Some? && |other.value| == 0 ==> r.value == claims.value
    ensures r.Some? && |other.value| > 0 ==>
      && |r.value| == |claims.value| + |other.value| - 1
      && r.value[..|claims.value| - 1] == claims.value[..|claims.value| - 1]
      && r.value[|claims.value| - 1] == Comma
      && r.value[|claims.value|..] == other.value[1..]
      && (|claims.value| >= 2 ==> r.value[0] == claims.value[0])
      && (|other.value| >= 2 ==> r.value[|r.value| - 1] == other.value[|other.value| - 1])
  {
    if claims.Failure? || other.Failure? then None
    else if |other.value| == 0 then Some(claims.value)
    else Some(claims.value[..|claims.value| - 1] + [Comma] + other.value[1..])
  }

  /** The source's steps: marshal results checked in turn, reslice both outputs, then append. */
  method Merge(claims: Marshaled, other: Marshaled) returns (raw: Option<seq<byte>>)
    requires SpliceDefined(claims, other)
    ensures raw == Merged(claims, other)
  {
    if claims.Failure? {
      return None;
    }
    var claimsB := claims.value;
    if other.Failure? {
      return None;
    }
    var otherB := other.value;
    if |otherB| == 0 {
      return Some(claimsB);
    }
    claimsB := claimsB[0..|claimsB| - 1];
    otherB := otherB[1..];
    var out := claimsB + [Comma];
    out := out + otherB;
    return Some(out);
  }

  // ---------------------------------------------------------------------
  // JSON object shape, as bytes.

  /** The bytes of a JSON object whose members, between the braces, are `members`. */
  function Object(members: seq<byte>): (b: seq<byte>)
    ensures |b| == |members| + 2 && b[0] == OpenBrace && b[|b| - 1] == CloseBrace
    ensures b[1..|b| - 1] == members
  {
    [OpenBrace] + members + [CloseBrace]
  }

  /** `k` occurs in `s` starting at index `p`. */
  predicate OccursAt(s: seq<byte>, k: seq<byte>, p: int) {
    0 <= p && p + |k| <= |s| && s[p..p + |k|] == k
  }

  /** Two marshalled objects become one object whose members are both member lists joined by a comma. */
  lemma {:induction false} MergedObjects(ma: seq<byte>, mb: seq<byte>)
    ensures Merged(Success(Object(ma)), Success(Object(mb))) == Some(Object(ma + [Comma] + mb))
  {
    var a, b := Object(ma), Object(mb);
    assert a[..|a| - 1] == [OpenBrace] + ma;
    assert b[1..] == mb + [CloseBrace];
    assert [OpenBrace] + ma + [Comma] + (mb + [CloseBrace]) == [OpenBrace] + (ma + [Comma] + mb) + [CloseBrace];
  }

  /** Nothing is deduplicated: a byte string inside either object's members is still in the merged result, at a known place. */
  lemma {:induction false} MergeKeepsBothOccurrences(ma: seq<byte>, mb: seq<byte>, k: seq<byte>, p: int, q: int)
    requires OccursAt(ma, k, p) && OccursAt(mb, k, q)
    ensures var r := Merged(Success(Object(ma)), Success(Object(mb)));
      r.Some? && OccursAt(r.value, k, 1 + p) && OccursAt(r.value, k, |ma| + 2 + q)
  {
    MergedObjects(ma, mb);
    var r := Object(ma + [Comma] + mb);
    assert r == [OpenBrace] + ma + [Comma] + mb + [CloseBrace];
    assert r[1 + p..1 + p + |k|] == ma[p..p + |k|];
    assert r[|ma| + 2 + q..|ma| + 2 + q + |k|] == mb[q..q + |k|];
  }

  /** Only a zero-length second output passes through: a second operand marshalled to `{}` leaves a trailing comma. */
  lemma EmptyObjectSecondLeavesTrailingComma(ma: seq<byte>)
    ensures var r := Merged(Success(Object(ma)), Success(Object([])));
      r == Some(Object(ma + [Comma])) && r.value[|r.value| - 2] == Comma
  {
    MergedObjects(ma, []);
    assert ma + [Comma] + [] == ma + [Comma];
  }

  /** A first operand marshalled to `{}` leaves a leading comma. */
  lemma EmptyObjectFirstLeavesLeadingComma(mb: seq<byte>)
    ensures var r := Merged(Success(Object([])), Success(Object(mb)));
      r == Some(Object([Comma] + mb)) && r.value[1] == Comma
  {
    MergedObjects([], mb);
    assert [] + [Comma] + mb == [Comma] + mb;
  }
}
