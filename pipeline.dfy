/** The file-level pipeline of Enigma.py without its processes and queues: split the
    text into n chunks, run a fresh cipher over each chunk (process_chunk), and join
    the results after sorting them by chunk index. */
module Pipeline {
  import opened Sequences
  import opened Chunking
  import opened Tagged
  import opened Enigma

  /** The direction of a run; the callers only pass 'encrypt' or 'decrypt'. */
  datatype Action = Encrypt | Decrypt

  /** What one worker computes for one chunk: a cipher at the start positions,
      encrypting or decrypting the whole chunk. */
  function ChunkResult(rs: Rotors, action: Action, chunk: string): string
    requires ValidRotors(rs)
  {
    if action == Encrypt then EncryptFrom(rs, Start, chunk) else DecryptFrom(rs, Start, chunk)
  }

  /** The worker results for all chunks, in chunk order. */
  function ChunkResults(rs: Rotors, action: Action, chunks: seq<string>): (r: seq<string>)
    requires ValidRotors(rs)
    ensures |r| == |chunks|
    ensures forall i :: 0 <= i < |chunks| ==> r[i] == ChunkResult(rs, action, chunks[i])
  {
    seq(|chunks|, i requires 0 <= i < |chunks| => ChunkResult(rs, action, chunks[i]))
  }

  /** The text process_file saves: the chunk results joined in chunk order. */
  function FileResult(rs: Rotors, action: Action, text: string, n: nat): string
    requires ValidRotors(rs) && n >= 1
  {
    Flatten(ChunkResults(rs, action, Chunks(text, n)))
  }

  /** process_chunk (Enigma.py:141-149) without the log messages: a new cipher for the
      key, applied to the chunk, the result tagged with the task id. */
  method ProcessChunk(taskId: int, chunk: string, key: int, action: Action, shuffle: int -> seq<char>)
    returns (result: (int, string))
    requires ValidRotors(KeyRotors(shuffle, key))
    ensures result.0 == taskId
    ensures result.1 == ChunkResult(KeyRotors(shuffle, key), action, chunk)
    ensures |result.1| == |chunk|
  {
    var cipher := new EnigmaLikeCipher(key, shuffle);
    var text;
    if action == Encrypt {
      text := cipher.Encrypt(chunk);
    } else {
      text := cipher.Decrypt(chunk);
    }
    return (taskId, text);
  }

  /** A fresh cipher's decrypt undoes a fresh same-key cipher's encrypt: both start
      at positions (0, 0, 0) and move in lock-step. */
  lemma ChunkRoundTrip(rs: Rotors, chunk: string)
    requires ValidRotors(rs)
    ensures ChunkResult(rs, Decrypt, ChunkResult(rs, Encrypt, chunk)) == chunk
  {
    DecryptEncrypt(rs, Start, chunk);
  }

  /** The partition loop of process_file (Enigma.py:181-186). */
  method SplitText(text: string, numProcesses: int) returns (chunks: seq<string>)
    requires numProcesses >= 1
    ensures chunks == Chunks(text, numProcesses)
  {
    var chunkSize := |text| / numProcesses;
    chunks := [];
    for i := 0 to numProcesses
      invariant chunks == Chunks(text, numProcesses)[..i]
    {
      ChunkBounds(|text|, numProcesses, i);
      var start := i * chunkSize;
      var end := if i < numProcesses - 1 then (i + 1) * chunkSize else |text|;
      chunks := chunks + [text[start..end]];
    }
  }

  /** Sort the results by task id and join their texts (Enigma.py:226-227). */
  function Reassemble(results: seq<(int, string)>): string
  {
    Flatten(Payloads(SortByTag(results)))
  }

  /** Reassembly does not depend on the order the results arrived in: any arrival
      order of the tagged chunk results joins to the results in chunk order. */
  lemma ReassembleAnyOrder(outputs: seq<string>, arrived: seq<(int, string)>)
    requires multiset(arrived) == multiset(Enumerate(outputs))
    ensures Reassemble(arrived) == Flatten(outputs)
  {
    SortByTagRestoresOrder(outputs, arrived);
    PayloadsOfEnumerate(outputs);
  }

  /** process_file (Enigma.py:163-243) from the decoded text to the text it saves.
      Worker i gets chunk i; the results come back in some order, modelled by an
      arbitrary permutation, and are then sorted and joined. */
  method ProcessText(text: string, action: Action, key: int, numProcesses: int, shuffle: int -> seq<char>)
    returns (processedText: string)
    requires numProcesses >= 1
    requires ValidRotors(KeyRotors(shuffle, key))
    ensures processedText == FileResult(KeyRotors(shuffle, key), action, text, numProcesses)
  {
    var chunks := SplitText(text, numProcesses);
    ghost var outputs := ChunkResults(KeyRotors(shuffle, key), action, chunks);
    var results: seq<(int, string)> := [];
    for i := 0 to numProcesses
      invariant results == Enumerate(outputs)[..i]
    {
      var r := ProcessChunk(i, chunks[i], key, action, shuffle);
      EnumerateSnoc(outputs, i);
      results := results + [r];
    }
    assert Enumerate(outputs)[..numProcesses] == Enumerate(outputs);
    var arrived: seq<(int, string)> :| multiset(arrived) == multiset(results);
    ReassembleAnyOrder(outputs, arrived);
    processedText := Reassemble(arrived);
  }

  /** A file run preserves the length of the text. */
  lemma FileResultLength(rs: Rotors, action: Action, text: string, n: nat)
    requires ValidRotors(rs) && n >= 1
    ensures |FileResult(rs, action, text, n)| == |text|
  {
    var cs := Chunks(text, n);
    FlattenSameShape(ChunkResults(rs, action, cs), cs);
    ChunksCover(text, n);
  }

  /** Decrypting an encrypted file with the same key and the same number of chunks
      gives the text back: encryption preserves each chunk's length, so the chunk
      boundaries of the ciphertext are those of the plaintext. */
  lemma FileRoundTrip(rs: Rotors, text: string, n: nat)
    requires ValidRotors(rs) && n >= 1
    ensures FileResult(rs, Decrypt, FileResult(rs, Encrypt, text, n), n) == text
  {
    var cs := Chunks(text, n);
    var es := ChunkResults(rs, Encrypt, cs);
    ChunksOfSameShape(text, n, es);
    var ds := ChunkResults(rs, Decrypt, es);
    forall i | 0 <= i < n
      ensures ds[i] == cs[i]
    {
      ChunkRoundTrip(rs, cs[i]);
    }
    assert ds == cs;
    ChunksCover(text, n);
  }

  /** The worked example: three characters in two chunks split as "A" and "BC". */
  lemma SplitExample()
    ensures Chunks("ABC", 2) == ["A", "BC"]
  {
    var cs := Chunks("ABC", 2);
    assert ChunkEnd(3, 2, 0) == 1 && ChunkStart(3, 2, 1) == 1;
    assert cs[0] == "ABC"[0..1] == "A";
    assert cs[1] == "ABC"[1..3] == "BC";
  }
}
