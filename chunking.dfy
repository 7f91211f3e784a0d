/** Boundary arithmetic of the splitter (logic.py:31-54): the ciphertext of
    length n is cut into `pieces` contiguous chunks of `n // pieces` bytes,
    the last one also taking the `n % pieces` remainder. */
module Chunking {

  newtype uint8 = x: int | 0 <= x < 256

  type Bytes = seq<uint8>

  /** Length of the chunk at 0-based position i: `chunk_size`, plus
      `remainder` for the last one. */
  function ChunkLength(n: nat, pieces: nat, i: nat): nat
    requires i < pieces
  {
    if i == pieces - 1 then n / pieces + n % pieces else n / pieces
  }

  /** The cursor `current_pos` before chunk i: the sum of the lengths of
      chunks 0 .. i-1. */
  function Offset(n: nat, pieces: nat, i: nat): nat
    requires i <= pieces
  {
    if i == 0 then 0 else Offset(n, pieces, i - 1) + ChunkLength(n, pieces, i - 1)
  }

  /** Every chunk but the last starts at a multiple of `n // pieces`, and the
      cursor ends exactly at n. */
  lemma {:induction false} OffsetClosedForm(n: nat, pieces: nat, i: nat)
    requires 0 < pieces && i <= pieces
    ensures i < pieces ==> Offset(n, pieces, i) == i * (n / pieces)
    ensures i == pieces ==> Offset(n, pieces, i) == n
  {
    if i > 0 {
      OffsetClosedForm(n, pieces, i - 1);
      var q := n / pieces;
      assert (i - 1) * q + q == i * q;
      if i == pieces {
        assert pieces * q + n % pieces == n;
      }
    }
  }

  lemma {:induction false} OffsetWithin(n: nat, pieces: nat, i: nat)
    requires i <= pieces
    ensures Offset(n, pieces, i) <= n
  {
    if 0 < i {
      OffsetClosedForm(n, pieces, i);
      if i < pieces {
        var q := n / pieces;
        assert pieces * q == i * q + (pieces - i) * q;
        assert pieces * q <= n;
      }
    }
  }

  /** The i-th slice `encrypted_data[current_pos : current_pos + current_chunk_size]`. */
  function Chunk(ciphertext: Bytes, pieces: nat, i: nat): (c: Bytes)
    requires i < pieces
    ensures |c| == ChunkLength(|ciphertext|, pieces, i)
  {
    var n := |ciphertext|;
    OffsetWithin(n, pieces, i + 1);
    ciphertext[Offset(n, pieces, i)..Offset(n, pieces, i + 1)]
  }

  /** All slices, in generation order. */
  function Chunks(ciphertext: Bytes, pieces: nat): (cs: seq<Bytes>)
    ensures |cs| == pieces
  {
    seq(pieces, i requires 0 <= i < pieces => Chunk(ciphertext, pieces, i))
  }

  /** The byte buffer grown by `+=` over the parts, in order. */
  function Concat(parts: seq<Bytes>): Bytes
    decreases |parts|
  {
    if |parts| == 0 then [] else Concat(parts[..|parts| - 1]) + parts[|parts| - 1]
  }

  lemma {:induction false} ConcatAppend(parts: seq<Bytes>, last: Bytes)
    ensures Concat(parts + [last]) == Concat(parts) + last
  {
    assert (parts + [last])[..|parts|] == parts;
  }

  /** Every chunk has `n // pieces` bytes except the last, which has
      `n // pieces + n % pieces`; none is empty when pieces <= n. */
  lemma {:induction false} ChunkSizes(ciphertext: Bytes, pieces: nat)
    requires 0 < pieces <= |ciphertext|
    ensures forall i :: 0 <= i < pieces - 1 ==> |Chunks(ciphertext, pieces)[i]| == |ciphertext| / pieces
    ensures |Chunks(ciphertext, pieces)[pieces - 1]| == |ciphertext| / pieces + |ciphertext| % pieces
    ensures forall i :: 0 <= i < pieces ==> |Chunks(ciphertext, pieces)[i]| > 0
  {
  }

  lemma {:induction false} ConcatChunksPrefix(ciphertext: Bytes, pieces: nat, k: nat)
    requires k <= pieces
    ensures Offset(|ciphertext|, pieces, k) <= |ciphertext|
    ensures Concat(Chunks(ciphertext, pieces)[..k]) == ciphertext[..Offset(|ciphertext|, pieces, k)]
  {
    var n := |ciphertext|;
    OffsetWithin(n, pieces, k);
    if k > 0 {
      var cs := Chunks(ciphertext, pieces);
      var lo, hi := Offset(n, pieces, k - 1), Offset(n, pieces, k);
      ConcatChunksPrefix(ciphertext, pieces, k - 1);
      assert cs[k - 1] == ciphertext[lo..hi];
      assert cs[..k] == cs[..k - 1] + [cs[k - 1]];
      ConcatAppend(cs[..k - 1], cs[k - 1]);
      assert ciphertext[..hi] == ciphertext[..lo] + ciphertext[lo..hi];
    }
  }

  /** The chunks partition the ciphertext: concatenated in order they give it
      back exactly, with no byte lost or duplicated. */
  lemma {:induction false} Partition(ciphertext: Bytes, pieces: nat)
    requires 0 < pieces
    ensures Concat(Chunks(ciphertext, pieces)) == ciphertext
  {
    var cs := Chunks(ciphertext, pieces);
    ConcatChunksPrefix(ciphertext, pieces, pieces);
    OffsetClosedForm(|ciphertext|, pieces, pieces);
    assert cs[..pieces] == cs;
  }
}
