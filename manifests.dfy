/** The manifest record, the fixed part names and the name-to-bytes map that
    the splitter fills and the joiner reads (logic.py:35-66, 84-101). */
module Manifests {

  import opened Chunking
  import Decimal

  /** Name under which the key travels (logic.py:43, 84). */
  const KeyFile: string := "encryption_key.key"

  /** Name under which the serialised manifest travels (logic.py:66, 85). */
  const ManifestFile: string := "manifest.json"

  /** One element of `chunk_hashes`: `{'filename': ..., 'hash': ...}`. */
  datatype HashEntry = HashEntry(filename: string, hash: string)

  /** The manifest dictionary as a record; both lists keep generation order. */
  datatype Manifest = Manifest(
    originalFilename: string,
    chunkOrder: seq<string>,
    chunkHashes: seq<HashEntry>)

  /** `f"chunk_{k}.bin"`; the splitter passes the 1-based position k = i + 1. */
  function ChunkName(k: nat): string {
    "chunk_" + Decimal.NatToString(k) + ".bin"
  }

  lemma {:induction false} ChunkNameInjective(a: nat, b: nat)
    ensures ChunkName(a) == ChunkName(b) ==> a == b
  {
    if ChunkName(a) == ChunkName(b) {
      var s := ChunkName(a);
      assert Decimal.NatToString(a) == s[6..|s| - 4];
      assert Decimal.NatToString(b) == s[6..|s| - 4];
      Decimal.NatToStringInjective(a, b);
    }
  }

  /** No chunk name is one of the two reserved part names. */
  lemma {:induction false} ChunkNameNotReserved(k: nat)
    ensures ChunkName(k) != KeyFile && ChunkName(k) != ManifestFile
  {
    assert ChunkName(k)[0] == 'c';
    assert KeyFile[0] == 'e' && ManifestFile[0] == 'm';
  }

  predicate Distinct(names: seq<string>) {
    forall i, j :: 0 <= i < j < |names| ==> names[i] != names[j]
  }

  /** `chunk_order` as produced for `count` chunks. */
  function ChunkNames(count: nat): (names: seq<string>)
    ensures |names| == count
  {
    seq(count, i requires 0 <= i < count => ChunkName(i + 1))
  }

  /** The generated names are pairwise distinct and never a reserved name. */
  lemma {:induction false} ChunkNamesDistinct(count: nat)
    ensures Distinct(ChunkNames(count))
    ensures forall i :: 0 <= i < count ==> ChunkNames(count)[i] != KeyFile && ChunkNames(count)[i] != ManifestFile
  {
    var names := ChunkNames(count);
    forall i, j | 0 <= i < j < count ensures names[i] != names[j] {
      ChunkNameInjective(i + 1, j + 1);
    }
    forall i | 0 <= i < count ensures names[i] != KeyFile && names[i] != ManifestFile {
      ChunkNameNotReserved(i + 1);
    }
  }

  /** `chunk_hashes`: the i-th entry pairs the i-th name with the digest of
      the i-th chunk. */
  function HashEntries(digest: Bytes -> string, names: seq<string>, chunks: seq<Bytes>): (hs: seq<HashEntry>)
    requires |names| == |chunks|
    ensures |hs| == |names|
  {
    seq(|names|, i requires 0 <= i < |names| => HashEntry(names[i], digest(chunks[i])))
  }

  /** The manifest the splitter writes for the given chunks. */
  function ManifestFor(originalFilename: string, digest: Bytes -> string, chunks: seq<Bytes>): (m: Manifest)
    ensures m.originalFilename == originalFilename
    ensures |m.chunkOrder| == |m.chunkHashes| == |chunks|
    ensures forall i :: 0 <= i < |chunks| ==>
      m.chunkOrder[i] == ChunkName(i + 1) &&
      m.chunkHashes[i].filename == m.chunkOrder[i] &&
      m.chunkHashes[i].hash == digest(chunks[i])
  {
    var names := ChunkNames(|chunks|);
    Manifest(originalFilename, names, HashEntries(digest, names, chunks))
  }

  /** The names in `ChunkNames(count)` are exactly `chunk_1.bin` .. `chunk_<count>.bin`. */
  lemma {:induction false} ChunkNamesAsSet(count: nat)
    ensures (set n | n in ChunkNames(count)) == set k | 1 <= k <= count :: ChunkName(k)
  {
    var names := ChunkNames(count);
    var named := set k | 1 <= k <= count :: ChunkName(k);
    forall n | n in names ensures n in named {
      var i :| 0 <= i < count && names[i] == n;
      assert n == ChunkName(i + 1);
    }
    forall n | n in named ensures n in names {
      var k :| 1 <= k <= count && n == ChunkName(k);
      assert names[k - 1] == n;
    }
  }

  /** The part map built by inserting each (name, bytes) pair in turn; a later
      name overwrites an earlier equal one, as a dictionary assignment does. */
  function FileMap(names: seq<string>, contents: seq<Bytes>): (files: map<string, Bytes>)
    requires |names| == |contents|
    ensures files.Keys == set n | n in names
    decreases |names|
  {
    if |names| == 0 then map[]
    else
      var k := |names| - 1;
      var prefix := FileMap(names[..k], contents[..k]);
      assert names == names[..k] + [names[k]];
      prefix[names[k] := contents[k]]
  }

  lemma {:induction false} FileMapAppend(names: seq<string>, contents: seq<Bytes>, name: string, content: Bytes)
    requires |names| == |contents|
    ensures FileMap(names + [name], contents + [content]) == FileMap(names, contents)[name := content]
  {
    assert (names + [name])[..|names|] == names;
    assert (contents + [content])[..|contents|] == contents;
  }

  lemma {:induction false} HashEntriesAppend(digest: Bytes -> string, names: seq<string>, chunks: seq<Bytes>, name: string, chunk: Bytes)
    requires |names| == |chunks|
    ensures HashEntries(digest, names + [name], chunks + [chunk])
         == HashEntries(digest, names, chunks) + [HashEntry(name, digest(chunk))]
  {
  }

  /** With distinct names, each name maps to its own content. */
  lemma {:induction false} FileMapAt(names: seq<string>, contents: seq<Bytes>, i: nat)
    requires |names| == |contents| && Distinct(names) && i < |names|
    ensures names[i] in FileMap(names, contents) && FileMap(names, contents)[names[i]] == contents[i]
    decreases |names|
  {
    var k := |names| - 1;
    if i < k {
      FileMapAt(names[..k], contents[..k], i);
    }
  }

  /** A sequence of distinct names names exactly that many parts. */
  lemma {:induction false} DistinctCard(names: seq<string>)
    requires Distinct(names)
    ensures |set n | n in names| == |names|
    decreases |names|
  {
    if |names| > 0 {
      var k := |names| - 1;
      DistinctCard(names[..k]);
      assert names == names[..k] + [names[k]];
      assert (set n | n in names) == (set n | n in names[..k]) + {names[k]};
      assert names[k] !in names[..k];
    }
  }
}
