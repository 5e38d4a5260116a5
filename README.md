# Enigma-style file cipher and parallel merge sort, in Dafny

This project models two small programs.

`Enigma.py` encrypts a text file with a rotor cipher:

- The alphabet has L = 399 characters: printable ASCII, Cyrillic and Cyrillic Supplement.
- There are three rotors. Each rotor is a shuffled copy of the alphabet, seeded by the key, twice the key or three times the key.
- The three rotor positions form a base-L odometer. Each alphabet character advances the odometer by one step. Other characters pass through unchanged and do not move the rotors.
- A file is split into `n` contiguous chunks. Each chunk is processed by a fresh cipher whose positions start at (0, 0, 0). The results are sorted by chunk index and joined.

`Sort.py` sorts a list of integers:

- The list is split into `n` parts in the same way as the chunks, with the last part absorbing the remainder.
- Each part is merge-sorted.
- The sorted parts are put back in part order, concatenated and merge-sorted once more.

Modules:

- `CipherAlphabet` (alphabet.dfy): the alphabet and `list.index`.
- `Enigma` (enigma.dfy):
  - the rotor wirings, the odometer and the per-character substitution and its inverse, as functions;
  - class `EnigmaLikeCipher`, whose methods update the three position fields and are proved against those functions.
- `Chunking` (chunking.dfy): the n-way split that both programs use.
- `Tagged` (tagged.dfy): (task id, payload) pairs and the sort by task id.
- `Pipeline` (pipeline.dfy): `process_chunk`, the partition loop and the reassembly of `process_file`.
- `Sorting` (sorting.dfy): `merge`, `merge_sort` and `sort_part`.
- `ParallelSort` (parallel_sort.dfy): the partition, concatenation and final sort of `parallel_sort`.
- `Sequences` (sequences.dfy): the concatenation of a list of sequences, and the fact that two sequences sorted by the same injective key with the same elements are equal.

Modelling choices:

- The seeded `random.shuffle` is a parameter `shuffle: int -> seq<char>` mapping a seed to a wiring. It is only required to return a permutation of the alphabet for the three seeds the key selects.
- The worker pools may return results in any order. That order is an arbitrary permutation of the submitted results, chosen with `:|`. `pool.starmap` in `Sort.py` in fact keeps part order; an arbitrary order covers that case too.
- Python's `%` with a positive modulus agrees with Dafny's `%`. Both give a result in [0, L), also for the negative differences in `decrypt_char`.
- `action` is the datatype `Encrypt | Decrypt`. The source decrypts for any value other than `'encrypt'`; its callers pass only those two values.
- `decrypt_char` assigns `idx` three times and never reads it (Enigma.py:95, 99, 103). The model leaves out those dead assignments.
- Reassembly (Enigma.py:226-227) sorts and joins whatever results arrived. It does not check that every chunk index 0..n-1 is present, and the model follows the code.

## Model

| member | source | states |
|---|---|---|
| CipherAlphabet.CodePoints | Enigma.py:38-45 | `[chr(i) for i in range(lo, hi)]` has hi - lo entries, and entry k has code point lo + k |
| CipherAlphabet.CollectedLayout | Enigma.py:37-45 | the collected list has 399 entries: entry k is code point 32 + k for k < 95 and 0x0400 + (k - 95) after that, because the two Cyrillic blocks are adjacent |
| CipherAlphabet.Alphabet | Enigma.py:36-46 | the alphabet has exactly L = 399 characters |
| CipherAlphabet.CollectedIsAlphabet | Enigma.py:37-46 | the collected list is already the alphabet, so the set-and-sort step changes nothing |
| CipherAlphabet.AlphabetFacts | Enigma.py:36-46 | the alphabet is strictly increasing and duplicate-free, and a character is in it exactly when its code point is in 32-126 or 0x0400-0x052F |
| CipherAlphabet.AlphabetIsSortedSet | Enigma.py:46 | the alphabet is `sorted(list(set(chars)))` of the collected list: it is strictly increasing with the same characters, and no other sequence is |
| CipherAlphabet.IndexOf | Enigma.py:74 | `s.index(c)` for c in s: s holds c at the result, and no earlier position holds c |
| CipherAlphabet.AlphabetIndex | Enigma.py:74 | the index of the alphabet's k-th character is k |
| Enigma.RotorFacts | Enigma.py:48-52 | a shuffled copy of the alphabet has L slots, holds no character twice and holds exactly the alphabet's characters |
| Enigma.RotateIsOdometer | Enigma.py:54-63 | from positions in [0, L), one rotation keeps all three positions in [0, L) and adds 1 to the base-L number they form, modulo L^3 |
| Enigma.RotorChar | Enigma.py:65-67 | reading a rotor at (pos + offset) mod L gives an alphabet character, for any integer pos and offset |
| Enigma.Forward | Enigma.py:74-85 | a forward pass through a rotor maps alphabet characters to alphabet characters |
| Enigma.Backward | Enigma.py:98-106 | a backward pass through a rotor maps alphabet characters to alphabet characters |
| Enigma.PassesInverse | Enigma.py:74-106 | at a fixed position, the backward pass undoes the forward pass and the forward pass undoes the backward pass |
| Enigma.EncryptCharAt | Enigma.py:69-88 | the encrypted character is in the alphabet exactly when the input is; a character outside the alphabet comes back unchanged |
| Enigma.DecryptCharAt | Enigma.py:90-109 | the decrypted character is in the alphabet exactly when the input is; a character outside the alphabet comes back unchanged |
| Enigma.DecryptEncryptChar | Enigma.py:69-109 | from the same positions, decrypt_char of encrypt_char(c) is c, and both advance the positions identically |
| Enigma.EncryptDecryptChar | Enigma.py:69-109 | from the same positions, encrypt_char of decrypt_char(c) is c |
| Enigma.EncryptCharBijective | Enigma.py:69-88 | at fixed positions encrypt_char is injective, and every alphabet character is the encryption of some alphabet character |
| Enigma.EncryptFrom | Enigma.py:111-112 | encrypt preserves length |
| Enigma.DecryptFrom | Enigma.py:114-115 | decrypt preserves length |
| Enigma.EncryptFromShape | Enigma.py:111-112 | position by position, encrypt keeps alphabet membership and leaves non-alphabet characters in place |
| Enigma.DecryptFromShape | Enigma.py:114-115 | position by position, decrypt keeps alphabet membership and leaves non-alphabet characters in place |
| Enigma.PositionsAfterInRange | Enigma.py:54-63 | after any text, the positions are still in [0, L) |
| Enigma.DecryptEncrypt | Enigma.py:111-115 | from the same starting positions, decrypt(encrypt(s)) == s for every s, and both end at the same positions |
| Enigma.EncryptDecrypt | Enigma.py:111-115 | from the same starting positions, encrypt(decrypt(s)) == s for every s |
| Enigma.EnigmaLikeCipher.constructor | Enigma.py:24-33 | a new cipher keeps the key, the alphabet and the wirings for seeds key, key * 2 and key * 3, with all positions at 0 |
| Enigma.EnigmaLikeCipher.RotateRotors | Enigma.py:54-63 | the new positions are the odometer step of the old ones; the invariant (positions in [0, L), rotors are permutations) is kept |
| Enigma.EnigmaLikeCipher.EncryptChar | Enigma.py:69-88 | returns the substitution at the old positions; the positions advance one step for an alphabet character and stay unchanged otherwise |
| Enigma.EnigmaLikeCipher.DecryptChar | Enigma.py:90-109 | returns the inverse substitution at the old positions; the positions advance exactly as in EncryptChar |
| Enigma.EnigmaLikeCipher.Encrypt | Enigma.py:111-112 | the loop of encrypt_char yields EncryptFrom of the old positions and ends at the positions after the text |
| Enigma.EnigmaLikeCipher.Decrypt | Enigma.py:114-115 | the loop of decrypt_char yields DecryptFrom of the old positions and ends at the positions after the text |
| Chunking.Chunks | Enigma.py:181-186 | for n >= 1 there are exactly n chunks; chunk i is text[i * (len // n)..(i + 1) * (len // n)], and the last one runs to len |
| Chunking.ChunkLengths | Enigma.py:181-186 | every chunk but the last holds len // n characters; the last holds the rest |
| Chunking.ChunksCover | Enigma.py:181-186 | the chunks joined in order are the text |
| Chunking.ChunksWhenFewElements | Enigma.py:181-186 | when n > len, the first n - 1 chunks are empty and the last is the whole text |
| Chunking.ChunksOfSameShape | Enigma.py:181-186 | the chunk boundaries depend only on the length and n: results of the same lengths as the chunks, joined and split again, come back unchanged |
| Tagged.Enumerate | Enigma.py:206-209 | task i carries index i and chunk i |
| Tagged.Payloads | Enigma.py:227 | `[chunk for _, chunk in results]` keeps the results' order and drops the indices |
| Tagged.SortByTag | Enigma.py:226 | sorting by task id gives a permutation of the results ordered by task id |
| Tagged.SortByTagRestoresOrder | Enigma.py:213-226 | whatever order the tagged results arrived in, sorting by task id restores submission order |
| Pipeline.ProcessChunk | Enigma.py:141-149 | returns the task id with a fresh cipher's encryption or decryption of the chunk, of the chunk's length |
| Pipeline.ChunkRoundTrip | Enigma.py:145-146 | a fresh cipher's decrypt undoes a fresh same-key cipher's encrypt |
| Pipeline.SplitText | Enigma.py:181-186 | the partition loop builds exactly Chunks(text, n) |
| Pipeline.ReassembleAnyOrder | Enigma.py:213-227 | whatever order the results arrive in, the reassembled text is the chunk results joined in chunk order |
| Pipeline.ProcessText | Enigma.py:180-227 | the saved text is the concatenation, in chunk order, of each chunk's fresh-cipher result |
| Pipeline.FileResultLength | Enigma.py:180-227 | processing a text preserves its length |
| Pipeline.FileRoundTrip | Enigma.py:180-227 | decrypting the encrypted file with the same key and the same n gives the text back |
| Pipeline.SplitExample | Enigma.py:181-186 | "ABC" in two chunks splits as "A" and "BC" |
| Sorting.Merge | Sort.py:35-47 | the two-pointer loop and the two extends yield Merged(left, right): length \|left\| + \|right\|, a permutation of left + right, sorted when both inputs are |
| Sorting.MergedPermutation | Sort.py:35-47 | the merge has length \|left\| + \|right\| and the same multiset as left + right |
| Sorting.MergedSorted | Sort.py:35-47 | the merge of two sorted lists is sorted |
| Sorting.MergeStable | Sort.py:38-44 | each merged element is left[i] or right[j] as its source says; each side's elements keep their order; a right element placed before a left element is strictly smaller, so ties go to left |
| Sorting.MergeSort | Sort.py:26-32 | the result is sorted and a permutation of the input, and an input of length <= 1 comes back unchanged |
| Sorting.SortPart | Sort.py:50-54 | the part id is kept, the data comes back sorted and as a permutation of the input |
| ParallelSort.PartsAreChunks | Sort.py:62-66 | for n >= 1 there are exactly n parts, tagged 0..n-1; they are the n chunks, with the last part absorbing the remainder, and they join to arr |
| ParallelSort.LastPart | Sort.py:63-66 | the appended leftover `arr[n * size:]` completes the last part exactly when n does not divide the length; otherwise the last raw part already ends at len |
| ParallelSort.JoinedPartsPermutation | Sort.py:71-76 | in whatever order the sorted parts arrive, sorting them by part id and joining them gives a permutation of arr |
| ParallelSort.ParallelSort | Sort.py:57-84 | the result is sorted, a permutation of arr, and equal to merge_sort(arr), whatever order the sorted parts came back in |

## Left out

- `Pra.py` is not part of this model. It is a GUI with network calls and image resizing and has no logic to model.
- `random.seed` and `random.shuffle` (Enigma.py:27, 48-52) are library code. The wirings come from the `shuffle` parameter, required to be permutations of the alphabet.
- Enigma.EnigmaLikeCipher.constructor: requires that the three wirings are permutations of the alphabet. A shuffled copy always is one, but that fact belongs to the library.
- Processes, threads, queues, `apply_async` callbacks, sentinels and the save acknowledgement (Enigma.py:188-240, Sort.py:58-60, 70-71, 81-83) are concurrency plumbing. Only their effect is modelled: every task's result arrives once, in some order.
- A worker that raises leaves its result out of `results`, and the code joins whatever arrived. The model assumes every worker succeeds, since nothing in the cipher raises on a string.
- The worker count chosen from `psutil.cpu_percent` and `cpu_count` (Enigma.py:167-170) depends on the machine. The model takes `n >= 1` as a parameter.
- Logging, `read_file` with its encoding fallback, `save_worker`, the output file name, `sorted_array.txt`, the `main` menus, input parsing and timing are I/O. They are not modelled.
- Results that depend on concrete wirings are not modelled, for example that a file encrypted with one n does not decrypt with another n. The wirings are arbitrary permutations here.
