/** The split/rejoin pipeline of logic.py: `split_and_encrypt` and
    `join_and_decrypt`, each as a method that runs the source's loop and a
    specification function it is proved equal to, with the properties of
    the pipeline proved about those functions. */
module Logic {

  import opened Wrappers
  import opened Chunking
  import opened Manifests

  /** The library calls the core makes, as functions it is given:
      `Fernet(key).encrypt(data)`, `Fernet(key).decrypt(token)` (None when it
      raises), `hashlib.sha256(b).hexdigest()`, and the JSON encoding of the
      manifest and its decoding (None when `json.loads` or a field lookup
      raises). */
  datatype Primitives = Primitives(
    encrypt: (Bytes, Bytes) -> Bytes,
    decrypt: (Bytes, Bytes) -> Option<Bytes>,
    sha256Hex: Bytes -> string,
    dumpManifest: Manifest -> Bytes,
    loadManifest: Bytes -> Option<Manifest>)

  /** What the libraries guarantee: Fernet decrypts what it encrypted under
      the same key, JSON decodes what it encoded, and an encoded manifest is
      never the empty byte string. */
  ghost predicate Sound(p: Primitives) {
    && (forall key, data :: p.decrypt(key, p.encrypt(key, data)) == Some(data))
    && (forall m :: p.loadManifest(p.dumpManifest(m)) == Some(m))
    && (forall m :: |p.dumpManifest(m)| > 0)
  }

  /** `file_size < pieces` raises; `pieces == 0` gets past that check and then
      divides by zero. */
  datatype SplitError = TooFewBytes | DivisionByZero

  datatype JoinError =
    | MissingKeyOrManifest
    | MalformedManifest
    | MissingChunk(name: string)
    | HashMismatch(name: string)
    | DecryptionFailed

  /** `len(range(pieces))`: a negative count gives an empty range. */
  function PieceCount(pieces: int): nat {
    if pieces > 0 then pieces else 0
  }

  /** The values `range(start, stop)` yields, in order. */
  function Range(start: int, stop: int): seq<int>
    decreases stop - start
  {
    if stop <= start then [] else [start] + Range(start + 1, stop)
  }

  /** `for i in range(pieces)` runs `PieceCount(pieces)` times, with i taking
      the values 0, 1, .. in turn. */
  lemma {:induction false} RangeLength(start: int, stop: int)
    ensures |Range(start, stop)| == PieceCount(stop - start)
    ensures forall j :: 0 <= j < |Range(start, stop)| ==> Range(start, stop)[j] == start + j
    decreases stop - start
  {
    if start < stop {
      RangeLength(start + 1, stop);
    }
  }

  // ---------------------------------------------------------------------
  // Splitting
  // ---------------------------------------------------------------------

  /** The part map `split_and_encrypt` returns for `key`, or the error it raises. */
  function Split(p: Primitives, key: Bytes, originalFilename: string, data: Bytes, pieces: int)
    : (r: Result<map<string, Bytes>, SplitError>)
    ensures r.Err? <==> pieces == 0 || |p.encrypt(key, data)| < pieces
  {
    var ciphertext := p.encrypt(key, data);
    if |ciphertext| < pieces then Err(TooFewBytes)
    else if pieces == 0 then Err(DivisionByZero)
    else
      var chunks := Chunks(ciphertext, PieceCount(pieces));
      var manifest := ManifestFor(originalFilename, p.sha256Hex, chunks);
      Ok((map[KeyFile := key] + FileMap(manifest.chunkOrder, chunks))[ManifestFile := p.dumpManifest(manifest)])
  }

  lemma {:induction false} UpdateUnion(a: map<string, Bytes>, b: map<string, Bytes>, k: string, v: Bytes)
    ensures (a + b)[k := v] == a + b[k := v]
  {
  }

  /** One turn of the loop of `split_and_encrypt` extends the order, the hash
      list and the part map by the next chunk. */
  lemma {:induction false} SplitStep(digest: Bytes -> string, key: Bytes, ciphertext: Bytes, count: nat, i: nat,
                  chunkOrder: seq<string>, chunkHashes: seq<HashEntry>, outputFiles: map<string, Bytes>,
                  written: seq<Bytes>)
    requires i < count
    requires written == Chunks(ciphertext, count)[..i]
    requires chunkOrder == ChunkNames(i)
    requires chunkHashes == HashEntries(digest, chunkOrder, written)
    requires outputFiles == map[KeyFile := key] + FileMap(chunkOrder, written)
    ensures var chunk, name := Chunk(ciphertext, count, i), ChunkName(i + 1);
      && written + [chunk] == Chunks(ciphertext, count)[..i + 1]
      && chunkOrder + [name] == ChunkNames(i + 1)
      && chunkHashes + [HashEntry(name, digest(chunk))] == HashEntries(digest, chunkOrder + [name], written + [chunk])
      && outputFiles[name := chunk] == map[KeyFile := key] + FileMap(chunkOrder + [name], written + [chunk])
  {
    var chunk, name := Chunk(ciphertext, count, i), ChunkName(i + 1);
    assert Chunks(ciphertext, count)[..i + 1] == written + [chunk];
    assert ChunkNames(i + 1) == chunkOrder + [name];
    FileMapAppend(chunkOrder, written, name, chunk);
    HashEntriesAppend(digest, chunkOrder, written, name, chunk);
    UpdateUnion(map[KeyFile := key], FileMap(chunkOrder, written), name, chunk);
  }

  /** The parts gathered by the loop of `split_and_encrypt` make up its result. */
  lemma {:induction false} SplitAssembled(p: Primitives, key: Bytes, originalFilename: string, data: Bytes, pieces: int,
                       chunkOrder: seq<string>, chunkHashes: seq<HashEntry>, outputFiles: map<string, Bytes>)
    requires pieces != 0 && pieces <= |p.encrypt(key, data)|
    requires var chunks := Chunks(p.encrypt(key, data), PieceCount(pieces));
      && chunkOrder == ChunkNames(|chunks|)
      && chunkHashes == HashEntries(p.sha256Hex, chunkOrder, chunks)
      && outputFiles == map[KeyFile := key] + FileMap(chunkOrder, chunks)
    ensures Split(p, key, originalFilename, data, pieces)
         == Ok(outputFiles[ManifestFile := p.dumpManifest(Manifest(originalFilename, chunkOrder, chunkHashes))])
  {
  }

  method SplitAndEncrypt(p: Primitives, key: Bytes, originalFilename: string, data: Bytes, pieces: int)
    returns (r: Result<map<string, Bytes>, SplitError>)
    ensures r.Err? <==> pieces == 0 || |p.encrypt(key, data)| < pieces
    ensures r == Split(p, key, originalFilename, data, pieces)
  {
    var encrypted := p.encrypt(key, data);
    var fileSize := |encrypted|;
    if fileSize < pieces {
      return Err(TooFewBytes);
    }
    if pieces == 0 {
      return Err(DivisionByZero);
    }
    // For pieces < 0 Python's floor division gives other values than these,
    // but the loop below then runs zero times and never reads them.
    var chunkSize := fileSize / pieces;
    var remainder := fileSize % pieces;
    var count := PieceCount(pieces);

    var chunkOrder: seq<string> := [];
    var chunkHashes: seq<HashEntry> := [];
    var outputFiles: map<string, Bytes> := map[KeyFile := key];
    ghost var written: seq<Bytes> := [];

    var currentPos := 0;
    var i := 0;
    while i < count
      invariant 0 <= i <= count
      invariant currentPos == Offset(fileSize, count, i)
      invariant written == Chunks(encrypted, count)[..i]
      invariant chunkOrder == ChunkNames(i)
      invariant chunkHashes == HashEntries(p.sha256Hex, chunkOrder, written)
      invariant outputFiles == map[KeyFile := key] + FileMap(chunkOrder, written)
    {
      var currentChunkSize := chunkSize;
      if i == pieces - 1 {
        currentChunkSize := currentChunkSize + remainder;
      }
      assert count == pieces;
      assert currentChunkSize == ChunkLength(fileSize, count, i);
      OffsetWithin(fileSize, count, i + 1);
      var chunkData := encrypted[currentPos..currentPos + currentChunkSize];
      currentPos := currentPos + currentChunkSize;

      var chunkHash := p.sha256Hex(chunkData);
      var chunkFilename := ChunkName(i + 1);

      assert chunkData == Chunk(encrypted, count, i);
      SplitStep(p.sha256Hex, key, encrypted, count, i, chunkOrder, chunkHashes, outputFiles, written);
      chunkOrder := chunkOrder + [chunkFilename];
      chunkHashes := chunkHashes + [HashEntry(chunkFilename, chunkHash)];
      written := written + [chunkData];
      outputFiles := outputFiles[chunkFilename := chunkData];
      i := i + 1;
    }

    assert written == Chunks(encrypted, count);
    SplitAssembled(p, key, originalFilename, data, pieces, chunkOrder, chunkHashes, outputFiles);
    var manifest := Manifest(originalFilename, chunkOrder, chunkHashes);
    outputFiles := outputFiles[ManifestFile := p.dumpManifest(manifest)];
    return Ok(outputFiles);
  }

  // ---------------------------------------------------------------------
  // Joining
  // ---------------------------------------------------------------------

  /** `file_data.get(name)` is truthy: the part is there and not empty. */
  predicate Present(files: map<string, Bytes>, name: string)
  {
    name in files && files[name] != []
  }

  /** Position i of `chunk_order` passes the joiner's checks: its chunk is
      present, `chunk_hashes` has an entry at the same position, and that
      entry's hash is the chunk's digest. The entry's own file name is never
      consulted. */
  predicate ChunkVerified(digest: Bytes -> string, files: map<string, Bytes>, m: Manifest, i: nat)
    requires i < |m.chunkOrder|
  {
    && Present(files, m.chunkOrder[i])
    && i < |m.chunkHashes|
    && digest(files[m.chunkOrder[i]]) == m.chunkHashes[i].hash
  }

  /** The first position at or after `from` that fails its checks, or
      `|chunk_order|` when none does. */
  function FirstUnverified(digest: Bytes -> string, files: map<string, Bytes>, m: Manifest, from: nat): (k: nat)
    requires from <= |m.chunkOrder|
    ensures from <= k <= |m.chunkOrder|
    ensures forall j :: from <= j < k ==> ChunkVerified(digest, files, m, j)
    ensures forall j :: from <= j < k ==> m.chunkOrder[j] in files
    ensures k < |m.chunkOrder| ==> !ChunkVerified(digest, files, m, k)
    decreases |m.chunkOrder| - from
  {
    if from == |m.chunkOrder| || !ChunkVerified(digest, files, m, from) then from
    else FirstUnverified(digest, files, m, from + 1)
  }

  /** Why the joiner stops at a position that fails its checks: the chunk
      is missing or empty, `chunk_hashes[i]` is out of range, or the
      digests differ. */
  function Rejection(digest: Bytes -> string, files: map<string, Bytes>, m: Manifest, i: nat): JoinError
    requires i < |m.chunkOrder| && !ChunkVerified(digest, files, m, i)
  {
    if !Present(files, m.chunkOrder[i]) then MissingChunk(m.chunkOrder[i])
    else if i >= |m.chunkHashes| then MalformedManifest
    else HashMismatch(m.chunkOrder[i])
  }

  /** The error at a failing position names the check that failed there, in
      the joiner's order: presence, then the hash entry, then the digest. */
  lemma {:induction false} RejectionReason(digest: Bytes -> string, files: map<string, Bytes>, m: Manifest, i: nat)
    requires i < |m.chunkOrder| && !ChunkVerified(digest, files, m, i)
    ensures var e := Rejection(digest, files, m, i);
      && (e.MissingChunk? || e.MalformedManifest? || e.HashMismatch?)
      && (e.MissingChunk? <==> m.chunkOrder[i] !in files || files[m.chunkOrder[i]] == [])
      && (e.MalformedManifest? <==> Present(files, m.chunkOrder[i]) && |m.chunkHashes| <= i)
      && (e.HashMismatch? <==>
            && Present(files, m.chunkOrder[i]) && i < |m.chunkHashes|
            && digest(files[m.chunkOrder[i]]) != m.chunkHashes[i].hash)
      && (e.MissingChunk? || e.HashMismatch? ==> e.name == m.chunkOrder[i])
  {
  }

  /** The contents of the named parts, in the order given. */
  function Gather(files: map<string, Bytes>, names: seq<string>): seq<Bytes>
    requires forall j :: 0 <= j < |names| ==> names[j] in files
  {
    seq(|names|, j requires 0 <= j < |names| => files[names[j]])
  }

  /** The pair `join_and_decrypt` returns for the part map `files`, or the
      error it raises. */
  function Join(p: Primitives, files: map<string, Bytes>): (r: Result<(string, Bytes), JoinError>)
    ensures r == Err(MissingKeyOrManifest) <==> !Present(files, KeyFile) || !Present(files, ManifestFile)
    ensures r.Ok? ==>
      && p.loadManifest(files[ManifestFile]).Some?
      && var m := p.loadManifest(files[ManifestFile]).value;
      && r.value.0 == m.originalFilename
      && (forall i :: 0 <= i < |m.chunkOrder| ==> ChunkVerified(p.sha256Hex, files, m, i))
      && (forall i :: 0 <= i < |m.chunkOrder| ==> m.chunkOrder[i] in files)
      && p.decrypt(files[KeyFile], Concat(Gather(files, m.chunkOrder))) == Some(r.value.1)
  {
    if !Present(files, KeyFile) || !Present(files, ManifestFile) then Err(MissingKeyOrManifest)
    else match p.loadManifest(files[ManifestFile])
      case None => Err(MalformedManifest)
      case Some(m) =>
        var k := FirstUnverified(p.sha256Hex, files, m, 0);
        if k < |m.chunkOrder| then Err(Rejection(p.sha256Hex, files, m, k))
        else match p.decrypt(files[KeyFile], Concat(Gather(files, m.chunkOrder)))
          case None => Err(DecryptionFailed)
          case Some(plaintext) => Ok((m.originalFilename, plaintext))
  }

  method JoinAndDecrypt(p: Primitives, files: map<string, Bytes>) returns (r: Result<(string, Bytes), JoinError>)
    ensures r == Join(p, files)
  {
    if !Present(files, KeyFile) || !Present(files, ManifestFile) {
      return Err(MissingKeyOrManifest);
    }
    var key := files[KeyFile];
    var parsed := p.loadManifest(files[ManifestFile]);
    if parsed.None? {
      return Err(MalformedManifest);
    }
    var manifest := parsed.value;
    var originalFilename := manifest.originalFilename;

    var encrypted: Bytes := [];
    var i := 0;
    while i < |manifest.chunkOrder|
      invariant 0 <= i <= |manifest.chunkOrder|
      invariant forall j :: 0 <= j < i ==> ChunkVerified(p.sha256Hex, files, manifest, j)
      invariant forall j :: 0 <= j < i ==> manifest.chunkOrder[j] in files
      invariant encrypted == Concat(Gather(files, manifest.chunkOrder[..i]))
    {
      var chunkFilename := manifest.chunkOrder[i];
      if !Present(files, chunkFilename) {
        assert !ChunkVerified(p.sha256Hex, files, manifest, i);
        return Err(MissingChunk(chunkFilename));
      }
      var chunkData := files[chunkFilename];
      if i >= |manifest.chunkHashes| {
        assert !ChunkVerified(p.sha256Hex, files, manifest, i);
        return Err(MalformedManifest);
      }
      var expectedHash := manifest.chunkHashes[i].hash;
      var actualHash := p.sha256Hex(chunkData);
      if expectedHash != actualHash {
        assert !ChunkVerified(p.sha256Hex, files, manifest, i);
        return Err(HashMismatch(chunkFilename));
      }
      // Only a chunk that passed every check reaches the buffer.
      assert Gather(files, manifest.chunkOrder[..i + 1]) == Gather(files, manifest.chunkOrder[..i]) + [chunkData];
      ConcatAppend(Gather(files, manifest.chunkOrder[..i]), chunkData);
      encrypted := encrypted + chunkData;
      i := i + 1;
    }

    assert manifest.chunkOrder[..i] == manifest.chunkOrder;
    var decrypted := p.decrypt(key, encrypted);
    if decrypted.None? {
      return Err(DecryptionFailed);
    }
    return Ok((originalFilename, decrypted.value));
  }

  // ---------------------------------------------------------------------
  // Properties of the pipeline
  // ---------------------------------------------------------------------

  /** Every part named in `parts` is in `files` with the same bytes; `files`
      may hold more. */
  predicate Includes(files: map<string, Bytes>, parts: map<string, Bytes>) {
    forall name :: name in parts ==> name in files && files[name] == parts[name]
  }

  /** A successful split returns the key, `pieces` non-empty chunks named
      `chunk_1.bin` .. `chunk_<pieces>.bin` and the manifest, and nothing
      else: `pieces + 2` parts, no chunk name clashing with a reserved one. */
  lemma {:induction false} SplitOutput(p: Primitives, key: Bytes, originalFilename: string, data: Bytes, pieces: int)
    requires 1 <= pieces <= |p.encrypt(key, data)|
    ensures var out := Split(p, key, originalFilename, data, pieces).value;
      var chunks := Chunks(p.encrypt(key, data), pieces);
      && out.Keys == {KeyFile, ManifestFile} + (set k | 1 <= k <= pieces :: ChunkName(k))
      && |out| == pieces + 2
      && out[KeyFile] == key
      && out[ManifestFile] == p.dumpManifest(ManifestFor(originalFilename, p.sha256Hex, chunks))
      && (forall i :: 0 <= i < pieces ==> out[ChunkName(i + 1)] == chunks[i] && |chunks[i]| > 0)
  {
    var chunks := Chunks(p.encrypt(key, data), pieces);
    var names := ChunkNames(pieces);
    var chunkFiles := FileMap(names, chunks);
    var manifestBytes := p.dumpManifest(ManifestFor(originalFilename, p.sha256Hex, chunks));
    var out := Split(p, key, originalFilename, data, pieces).value;
    assert out == (map[KeyFile := key] + chunkFiles)[ManifestFile := manifestBytes];
    var named := set k | 1 <= k <= pieces :: ChunkName(k);
    assert chunkFiles.Keys == named && KeyFile !in named && ManifestFile !in named by {
      ChunkNamesAsSet(pieces);
      forall k | 1 <= k <= pieces ensures ChunkName(k) != KeyFile && ChunkName(k) != ManifestFile {
        ChunkNameNotReserved(k);
      }
    }
    assert out.Keys == {KeyFile, ManifestFile} + named;
    assert |out.Keys| == pieces + 2 by {
      ChunkNamesDistinct(pieces);
      DistinctCard(names);
      assert |{KeyFile, ManifestFile}| == 2;
    }
    ChunkNamesDistinct(pieces);
    ChunkSizes(p.encrypt(key, data), pieces);
    forall i | 0 <= i < pieces ensures out[ChunkName(i + 1)] == chunks[i] && |chunks[i]| > 0 {
      FileMapAt(names, chunks, i);
    }
  }

  /** `pieces == 1` is no splitting at all: the one chunk is the whole
      ciphertext. */
  lemma {:induction false} SinglePiece(p: Primitives, key: Bytes, originalFilename: string, data: Bytes)
    requires 1 <= |p.encrypt(key, data)|
    ensures Split(p, key, originalFilename, data, 1).Ok?
    ensures Split(p, key, originalFilename, data, 1).value[ChunkName(1)] == p.encrypt(key, data)
  {
    SplitOutput(p, key, originalFilename, data, 1);
    Partition(p.encrypt(key, data), 1);
    var cs := Chunks(p.encrypt(key, data), 1);
    assert Concat(cs) == Concat(cs[..0]) + cs[0];
  }

  /** As written, a negative `pieces` passes the size check and `range(pieces)`
      is empty: the result holds only the key and a manifest listing no
      chunk, so no byte of the ciphertext leaves the splitter. */
  lemma {:induction false} SplitNegativePieces(p: Primitives, key: Bytes, originalFilename: string, data: Bytes, pieces: int)
    requires pieces < 0
    ensures Split(p, key, originalFilename, data, pieces).Ok?
    ensures Split(p, key, originalFilename, data, pieces).value.Keys == {KeyFile, ManifestFile}
    ensures Split(p, key, originalFilename, data, pieces).value[ManifestFile]
         == p.dumpManifest(Manifest(originalFilename, [], []))
  {
    assert ChunkNames(0) == [];
    assert HashEntries(p.sha256Hex, [], []) == [];
  }

  /** The joiner stops at the first position of `chunk_order` that fails its
      checks, with that position's error, whatever follows it. */
  lemma {:induction false} JoinStopsAtFirstFailure(p: Primitives, files: map<string, Bytes>, i: nat)
    requires Present(files, KeyFile) && Present(files, ManifestFile)
    requires p.loadManifest(files[ManifestFile]).Some?
    requires var m := p.loadManifest(files[ManifestFile]).value;
      && i < |m.chunkOrder|
      && (forall j :: 0 <= j < i ==> ChunkVerified(p.sha256Hex, files, m, j))
      && !ChunkVerified(p.sha256Hex, files, m, i)
    ensures Join(p, files) == Err(Rejection(p.sha256Hex, files, p.loadManifest(files[ManifestFile]).value, i))
  {
    var m := p.loadManifest(files[ManifestFile]).value;
    var k := FirstUnverified(p.sha256Hex, files, m, 0);
    assert k == i;
  }

  /** In any part map, a chunk listed in `chunk_order` that is absent or empty
      makes the join fail, at that position or an earlier one, without
      decrypting anything. */
  lemma {:induction false} JoinRejectsAbsentChunk(p: Primitives, files: map<string, Bytes>, i: nat)
    requires Present(files, KeyFile) && Present(files, ManifestFile)
    requires p.loadManifest(files[ManifestFile]).Some?
    requires var m := p.loadManifest(files[ManifestFile]).value;
      i < |m.chunkOrder| && !Present(files, m.chunkOrder[i])
    ensures var m := p.loadManifest(files[ManifestFile]).value;
      var k := FirstUnverified(p.sha256Hex, files, m, 0);
      && k <= i
      && Join(p, files) == Err(Rejection(p.sha256Hex, files, m, k))
  {
    var m := p.loadManifest(files[ManifestFile]).value;
    assert !ChunkVerified(p.sha256Hex, files, m, i);
  }

  /** Once the key and the manifest are there, an undecodable manifest is
      `MalformedManifest`, and a manifest whose every listed position passes
      its checks leads to decryption of the listed chunks in order: the
      original name with the plaintext, or `DecryptionFailed`. */
  lemma {:induction false} JoinOutcome(p: Primitives, files: map<string, Bytes>)
    requires Present(files, KeyFile) && Present(files, ManifestFile)
    ensures p.loadManifest(files[ManifestFile]).None? ==> Join(p, files) == Err(MalformedManifest)
    ensures p.loadManifest(files[ManifestFile]).Some? ==>
      var m := p.loadManifest(files[ManifestFile]).value;
      (forall i :: 0 <= i < |m.chunkOrder| ==> ChunkVerified(p.sha256Hex, files, m, i)) ==>
        && (forall i :: 0 <= i < |m.chunkOrder| ==> m.chunkOrder[i] in files)
        && var plaintext := p.decrypt(files[KeyFile], Concat(Gather(files, m.chunkOrder)));
        && (plaintext.None? ==> Join(p, files) == Err(DecryptionFailed))
        && (plaintext.Some? ==> Join(p, files) == Ok((m.originalFilename, plaintext.value)))
  {
    if p.loadManifest(files[ManifestFile]).Some? {
      var m := p.loadManifest(files[ManifestFile]).value;
      if forall i :: 0 <= i < |m.chunkOrder| ==> ChunkVerified(p.sha256Hex, files, m, i) {
        assert FirstUnverified(p.sha256Hex, files, m, 0) == |m.chunkOrder|;
      }
    }
  }

  /** The first `upto` chunks the splitter wrote are in `files`, unchanged,
      under their names. */
  predicate WrittenIn(files: map<string, Bytes>, chunks: seq<Bytes>, upto: nat)
    requires upto <= |chunks|
  {
    forall i :: 0 <= i < upto ==>
      ChunkName(i + 1) in files && files[ChunkName(i + 1)] == chunks[i] && chunks[i] != []
  }

  /** The parts of a successful split, looked up in a part map that holds
      all of them unchanged except those named in `missing`. */
  lemma {:induction false} SplitPartsFound(p: Primitives, key: Bytes, originalFilename: string, data: Bytes, pieces: int,
                                           files: map<string, Bytes>, missing: set<string>, upto: nat)
    requires 1 <= pieces <= |p.encrypt(key, data)| && upto <= pieces
    requires var out := Split(p, key, originalFilename, data, pieces).value;
      forall name :: name in out && name !in missing ==> name in files && files[name] == out[name]
    requires forall k :: 1 <= k <= upto ==> ChunkName(k) !in missing
    ensures var chunks := Chunks(p.encrypt(key, data), pieces);
      && (KeyFile !in missing ==> KeyFile in files && files[KeyFile] == key)
      && (ManifestFile !in missing ==>
            && ManifestFile in files
            && files[ManifestFile] == p.dumpManifest(ManifestFor(originalFilename, p.sha256Hex, chunks)))
      && WrittenIn(files, chunks, upto)
  {
    SplitOutput(p, key, originalFilename, data, pieces);
  }

  /** Chunks written by the splitter pass the joiner's checks, position by
      position, in any part map that holds them unchanged under their names. */
  lemma {:induction false} WrittenChunksVerify(digest: Bytes -> string, originalFilename: string, chunks: seq<Bytes>,
                                               files: map<string, Bytes>, upto: nat)
    requires upto <= |chunks| && WrittenIn(files, chunks, upto)
    ensures forall i :: 0 <= i < upto ==> ChunkVerified(digest, files, ManifestFor(originalFilename, digest, chunks), i)
  {
  }

  /** When all of them are there, the joiner finds no failing position and
      gathers exactly the written chunks, in order. */
  lemma {:induction false} AllWrittenChunksVerify(digest: Bytes -> string, originalFilename: string, chunks: seq<Bytes>,
                                                  files: map<string, Bytes>)
    requires WrittenIn(files, chunks, |chunks|)
    ensures var m := ManifestFor(originalFilename, digest, chunks);
      && FirstUnverified(digest, files, m, 0) == |chunks|
      && Gather(files, m.chunkOrder) == chunks
  {
    WrittenChunksVerify(digest, originalFilename, chunks, files, |chunks|);
  }

  /** The joiner accepts a part map holding the key, the manifest and every
      chunk the splitter wrote, and returns the name and the plaintext. */
  lemma {:induction false} JoinOfWrittenParts(p: Primitives, key: Bytes, originalFilename: string, data: Bytes,
                           chunks: seq<Bytes>, files: map<string, Bytes>)
    requires Sound(p) && key != []
    requires Concat(chunks) == p.encrypt(key, data)
    requires KeyFile in files && files[KeyFile] == key
    requires ManifestFile in files && files[ManifestFile] == p.dumpManifest(ManifestFor(originalFilename, p.sha256Hex, chunks))
    requires WrittenIn(files, chunks, |chunks|)
    ensures Join(p, files) == Ok((originalFilename, data))
  {
    var m := ManifestFor(originalFilename, p.sha256Hex, chunks);
    AllWrittenChunksVerify(p.sha256Hex, originalFilename, chunks, files);
    assert p.loadManifest(files[ManifestFile]) == Some(m);
  }

  /** The joiner, given the key, the manifest and the chunks before position
      i as the splitter wrote them, stops at position i when that chunk is
      missing or its digest differs from the written chunk's. */
  lemma {:induction false} JoinOfDamagedParts(p: Primitives, key: Bytes, originalFilename: string,
                           chunks: seq<Bytes>, files: map<string, Bytes>, i: nat)
    requires Sound(p) && key != [] && i < |chunks|
    requires KeyFile in files && files[KeyFile] == key
    requires ManifestFile in files && files[ManifestFile] == p.dumpManifest(ManifestFor(originalFilename, p.sha256Hex, chunks))
    requires WrittenIn(files, chunks, i)
    ensures !Present(files, ChunkName(i + 1)) ==> Join(p, files) == Err(MissingChunk(ChunkName(i + 1)))
    ensures Present(files, ChunkName(i + 1)) && p.sha256Hex(files[ChunkName(i + 1)]) != p.sha256Hex(chunks[i])
        ==> Join(p, files) == Err(HashMismatch(ChunkName(i + 1)))
  {
    var m := ManifestFor(originalFilename, p.sha256Hex, chunks);
    assert p.loadManifest(files[ManifestFile]) == Some(m);
    WrittenChunksVerify(p.sha256Hex, originalFilename, chunks, files, i);
    if !ChunkVerified(p.sha256Hex, files, m, i) {
      JoinStopsAtFirstFailure(p, files, i);
    }
  }

  /** Round trip: joining any part map that holds the split's parts unchanged
      gives back the original name and data. */
  lemma {:induction false} RoundTrip(p: Primitives, key: Bytes, originalFilename: string, data: Bytes, pieces: int,
                  files: map<string, Bytes>)
    requires Sound(p) && key != []
    requires 1 <= pieces <= |p.encrypt(key, data)|
    requires Includes(files, Split(p, key, originalFilename, data, pieces).value)
    ensures Join(p, files) == Ok((originalFilename, data))
  {
    var ciphertext := p.encrypt(key, data);
    SplitPartsFound(p, key, originalFilename, data, pieces, files, {}, pieces);
    Partition(ciphertext, pieces);
    JoinOfWrittenParts(p, key, originalFilename, data, Chunks(ciphertext, pieces), files);
  }

  /** A chunk of a split that is removed, emptied or replaced by bytes with
      another digest is reported by name, before decryption is tried,
      provided every other part is intact. */
  lemma {:induction false} DamagedChunkRejected(p: Primitives, key: Bytes, originalFilename: string, data: Bytes, pieces: int,
                             files: map<string, Bytes>, i: nat)
    requires Sound(p) && key != []
    requires 1 <= pieces <= |p.encrypt(key, data)| && i < pieces
    requires var out := Split(p, key, originalFilename, data, pieces).value;
      forall name :: name in out && name != ChunkName(i + 1) ==> name in files && files[name] == out[name]
    ensures !Present(files, ChunkName(i + 1)) ==> Join(p, files) == Err(MissingChunk(ChunkName(i + 1)))
    ensures Present(files, ChunkName(i + 1))
         && p.sha256Hex(files[ChunkName(i + 1)]) != p.sha256Hex(Chunks(p.encrypt(key, data), pieces)[i])
        ==> Join(p, files) == Err(HashMismatch(ChunkName(i + 1)))
  {
    ChunkNameNotReserved(i + 1);
    forall k | 1 <= k <= i ensures ChunkName(k) != ChunkName(i + 1) {
      ChunkNameInjective(k, i + 1);
    }
    SplitPartsFound(p, key, originalFilename, data, pieces, files, {ChunkName(i + 1)}, i);
    JoinOfDamagedParts(p, key, originalFilename, Chunks(p.encrypt(key, data), pieces), files, i);
  }
}
