/**
  Byte strings and the forward search `std::string::find(needle, pos)` that
  the shader loader uses, with a declarative statement of what the search
  returns: the first occurrence at or after `pos`, or none.
*/
module TextSearch {

  /** A `char` of a `std::string`, read as an unsigned byte. */
  newtype byte = b: int | 0 <= b < 256

  type Bytes = seq<byte>

  datatype Option<T> = None | Some(value: T)

  /** `needle` occurs in `text` starting at index `k`: it fits, and its
      bytes agree with the text's byte by byte (`OccursAtSlice` restates
      this as an equality of slices). */
  predicate OccursAt(text: Bytes, needle: Bytes, k: nat)
  {
    k + |needle| <= |text| && MatchesFrom(text, needle, k, 0)
  }

  /** Bytes `i ..` of `needle` agree with the text from `k + i` on. */
  predicate MatchesFrom(text: Bytes, needle: Bytes, k: nat, i: nat)
    requires k + |needle| <= |text|
    decreases |needle| - i
  {
    i >= |needle| || (text[k + i] == needle[i] && MatchesFrom(text, needle, k, i + 1))
  }

  /** The byte comparison agrees with the slice equality it implements. */
  lemma {:induction false} MatchesFromSlice(text: Bytes, needle: Bytes, k: nat, i: nat)
    requires k + |needle| <= |text| && i <= |needle|
    ensures MatchesFrom(text, needle, k, i) <==> text[k + i .. k + |needle|] == needle[i..]
    decreases |needle| - i
  {
    if i < |needle| {
      MatchesFromSlice(text, needle, k, i + 1);
      assert text[k + i .. k + |needle|] == [text[k + i]] + text[k + i + 1 .. k + |needle|];
      assert needle[i..] == [needle[i]] + needle[i + 1..];
    }
  }

  /** `needle` occurs at `k` exactly when the slice of the text there is `needle`. */
  lemma OccursAtSlice(text: Bytes, needle: Bytes, k: nat)
    ensures OccursAt(text, needle, k) <==> k + |needle| <= |text| && text[k .. k + |needle|] == needle
  {
    if k + |needle| <= |text| {
      MatchesFromSlice(text, needle, k, 0);
    }
  }

  /** `k` is the first index at or after `from` where `needle` occurs. */
  ghost predicate IsFirstFrom(text: Bytes, needle: Bytes, from: nat, k: nat)
  {
    && from <= k
    && OccursAt(text, needle, k)
    && forall m: nat :: from <= m < k ==> !OccursAt(text, needle, m)
  }

  /** `needle` does not occur anywhere at or after `from`. */
  ghost predicate AbsentFrom(text: Bytes, needle: Bytes, from: nat)
  {
    forall m: nat :: from <= m ==> !OccursAt(text, needle, m)
  }

  /** `text.find(needle, from)`: the position of the first occurrence of
      `needle` at or after `from`, `None` standing for `npos`.  That it is
      the first is `FindIsFirst`. */
  function Find(text: Bytes, needle: Bytes, from: nat): (r: Option<nat>)
    ensures r.Some? ==> from <= r.value && OccursAt(text, needle, r.value)
    decreases |text| - from
  {
    if from + |needle| > |text| then None
    else if MatchesFrom(text, needle, from, 0) then Some(from)
    else Find(text, needle, from + 1)
  }

  /** `Find` returns the first occurrence at or after `from`, and `None`
      exactly when there is none. */
  lemma {:induction false} FindIsFirst(text: Bytes, needle: Bytes, from: nat)
    ensures Find(text, needle, from).Some? ==> IsFirstFrom(text, needle, from, Find(text, needle, from).value)
    ensures Find(text, needle, from).None? ==> AbsentFrom(text, needle, from)
    decreases |text| - from
  {
    if from + |needle| <= |text| && !MatchesFrom(text, needle, from, 0) {
      FindIsFirst(text, needle, from + 1);
    }
  }

  /** There is only one first occurrence. */
  lemma FirstUnique(text: Bytes, needle: Bytes, from: nat, k1: nat, k2: nat)
    requires IsFirstFrom(text, needle, from, k1)
    requires IsFirstFrom(text, needle, from, k2)
    ensures k1 == k2
  {
  }

  /** Conversely, the first occurrence at or after `from` is what `Find` returns. */
  lemma FindReturnsFirst(text: Bytes, needle: Bytes, from: nat, k: nat)
    requires IsFirstFrom(text, needle, from, k)
    ensures Find(text, needle, from) == Some(k)
  {
    FindIsFirst(text, needle, from);
    if Find(text, needle, from).Some? {
      FirstUnique(text, needle, from, k, Find(text, needle, from).value);
    }
  }

  /** A one-byte needle occurs at `k` exactly when that byte is `text[k]`. */
  lemma OccursAtByte(text: Bytes, c: byte, k: nat)
    ensures OccursAt(text, [c], k) <==> k < |text| && text[k] == c
  {
    if k < |text| {
      assert MatchesFrom(text, [c], k, 1);
    }
  }
}
