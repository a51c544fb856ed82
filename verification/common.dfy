/** Shared vocabulary: bytes, the Option/Result wrappers and substring search. */
module Common {

  /** A byte of the message buffer (Rust's `u8`). */
  type byte = b: int | 0 <= b < 256

  /** A byte string: the buffer, a header name or value, an address (a Rust `String` is its UTF-8 bytes). */
  type Bytes = seq<byte>

  datatype Option<+T> = None | Some(value: T)

  datatype Result<+T, +E> = Ok(value: T) | Err(error: E)

  const LF: byte := 10
  const CR: byte := 13
  const AT: byte := 64

  /** The bytes of an ASCII string literal. */
  function Ascii(s: string): Bytes
    requires forall i :: 0 <= i < |s| ==> s[i] as int < 128
  {
    seq(|s|, i requires 0 <= i < |s| => s[i] as int)
  }

  /** The bytes of two ASCII strings in a row are the bytes of the two strings joined. */
  lemma AsciiConcat(a: string, b: string)
    requires forall i :: 0 <= i < |a| ==> a[i] as int < 128
    requires forall i :: 0 <= i < |b| ==> b[i] as int < 128
    ensures Ascii(a) + Ascii(b) == Ascii(a + b)
  {
  }

  /** `needle` occurs in `hay` starting at offset `k`. */
  predicate OccursAt<T(==)>(hay: seq<T>, k: nat, needle: seq<T>)
  {
    k + |needle| <= |hay| && hay[k..k + |needle|] == needle
  }

  ghost predicate Occurs<T>(hay: seq<T>, needle: seq<T>)
  {
    exists k: nat :: OccursAt(hay, k, needle)
  }

  /** The first occurrence of `needle` in `hay` (what `memchr::memmem::find` and `str::find` return). */
  function Find<T(==)>(hay: seq<T>, needle: seq<T>): (r: Option<nat>)
    ensures r.Some? ==> OccursAt(hay, r.value, needle)
    ensures r.Some? ==> forall j: nat :: j < r.value ==> !OccursAt(hay, j, needle)
    ensures r.None? <==> !Occurs(hay, needle)
  {
    FindFrom(hay, needle, 0)
  }

  function FindFrom<T(==)>(hay: seq<T>, needle: seq<T>, from: nat): (r: Option<nat>)
    ensures r.Some? ==> from <= r.value && OccursAt(hay, r.value, needle)
    ensures r.Some? ==> forall j: nat :: from <= j < r.value ==> !OccursAt(hay, j, needle)
    ensures r.None? ==> forall j: nat :: from <= j ==> !OccursAt(hay, j, needle)
    decreases |hay| - from
  {
    if from + |needle| > |hay| then None
    else if hay[from..from + |needle|] == needle then Some(from)
    else FindFrom(hay, needle, from + 1)
  }

  /** ASCII lower-casing of one byte; every other byte is left alone. */
  function Lower(b: byte): byte
  {
    if 65 <= b <= 90 then b + 32 else b
  }

  /** `pat` occurs in `hay` at offset `k`, ignoring ASCII case. */
  predicate OccursAtIgnoreCase(hay: Bytes, k: nat, pat: Bytes)
  {
    k + |pat| <= |hay| && forall j :: 0 <= j < |pat| ==> Lower(hay[k + j]) == Lower(pat[j])
  }

  /** An ASCII-case-insensitive occurrence of `pat` in `hay` whose last byte is just before `e`. */
  predicate EndsAt(hay: Bytes, pat: Bytes, e: nat)
  {
    |pat| <= e <= |hay| && OccursAtIgnoreCase(hay, e - |pat|, pat)
  }
}
