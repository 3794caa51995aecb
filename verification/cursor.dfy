/**
 * A raw sample read strictly left to right.  A decoder takes the sample and
 * a cursor `pos` and returns the decoded value with the cursor after it, or
 * the reason it could not: every read past the end of the sample is a
 * `ShortRead` at the offset where it started.
 */
module Cursor {
  import opened Results
  import opened Bytes
  import opened ArgTypes

  datatype DecodeError =
    | ShortRead(at: nat, wanted: nat)   // fewer than `wanted` bytes remain at offset `at`
    | MisplacedAlias(alias: TypeId)     // TYPE_NONE or TYPE_NUM reached the structural dispatch
    | UnknownAlias(alias: TypeId)       // no structural decoder exists for this alias type

  datatype Decoded<T> = Decoded(value: T, next: nat)

  type Decoding<T> = Result<Decoded<T>, DecodeError>

  /** The next `n` bytes. */
  function Read(s: seq<byte>, pos: nat, n: nat): (r: Decoding<seq<byte>>)
    ensures r.Ok? <==> pos + n <= |s|
    ensures r.Ok? ==> r.value.value == s[pos..pos + n] && r.value.next == pos + n
    ensures r.Err? ==> r.error == ShortRead(pos, n)
  {
    if pos + n <= |s| then Ok(Decoded(s[pos..pos + n], pos + n)) else Err(ShortRead(pos, n))
  }

  /** The next `n` bytes as a little-endian unsigned integer. */
  function ReadUint(s: seq<byte>, pos: nat, n: nat): (r: Decoding<nat>)
    ensures r.Ok? <==> pos + n <= |s|
    ensures r.Ok? ==> r.value.value == LeValue(s[pos..pos + n]) && r.value.next == pos + n
    ensures r.Err? ==> r.error == ShortRead(pos, n)
  {
    var bytes :- Read(s, pos, n);
    Ok(Decoded(LeValue(bytes.value), bytes.next))
  }

  /** `s` is a shorter capture of the sample `t`: its bytes are the first `|s|` bytes of `t`. */
  predicate IsPrefix(s: seq<byte>, t: seq<byte>) {
    |s| <= |t| && t[..|s|] == s
  }

  /** The bytes a shorter capture covers are the sample's bytes. */
  lemma SliceOnPrefix(s: seq<byte>, t: seq<byte>, i: nat, j: nat)
    requires IsPrefix(s, t) && i <= j <= |s|
    ensures t[i..j] == s[i..j]
  {
    forall k | i <= k < j
      ensures t[k] == s[k]
    {
      assert t[..|s|][k] == t[k];
    }
  }

  /**
   * How a decoder that consumes exactly the bytes it reads behaves on a
   * shorter capture `s` of a sample `t`, given its result `rs` on `s` and
   * `rt` on `t`: a success on `s` is the same success on `t`; a success on
   * `t` that ends within `s` is the same success on `s`; and one that ends
   * beyond `s` is a short read on `s`.
   */
  predicate PrefixStable<T(==)>(rs: Decoding<T>, rt: Decoding<T>, cut: nat) {
    && (rs.Ok? ==> rt == rs)
    && (rt.Ok? && rt.value.next <= cut ==> rs == rt)
    && (rt.Ok? && rt.value.next > cut ==> rs.Err? && rs.error.ShortRead?)
  }

  /** A read is decided by the bytes it covers. */
  lemma ReadOnPrefix(s: seq<byte>, t: seq<byte>, pos: nat, n: nat)
    requires IsPrefix(s, t)
    ensures PrefixStable(Read(s, pos, n), Read(t, pos, n), |s|)
  {
    if pos + n <= |s| {
      assert t[pos..pos + n] == t[..|s|][pos..pos + n];
    }
  }

  /** An integer read is decided by the bytes it covers. */
  lemma ReadUintOnPrefix(s: seq<byte>, t: seq<byte>, pos: nat, n: nat)
    requires IsPrefix(s, t)
    ensures PrefixStable(ReadUint(s, pos, n), ReadUint(t, pos, n), |s|)
  {
    ReadOnPrefix(s, t, pos, n);
  }
}
