# phonologen feature lookup table in Dafny

This project models the feature-name lookup table of phonologen. When the
feature `.csv` file is read, each feature name is entered in
`g_feature_lookup_table` with its index in the feature list. Later the
names are looked up to get those indices back. The table has three parts:

- `hash_string`, a 16-bit string hash. Its 32-bit accumulator is seeded with
  the string's second character. Each byte shifts the accumulator left by
  three and xors the byte in. At the end the upper half is xored into the
  lower half and the result is truncated to `uint16_t`.
- `g_feature_lookup_table`, an array of `HASH_TABLE_SIZE` = 65536 bucket
  heads. Each bucket is a singly linked chain of `hash_table_node`s. The
  16-bit hash is the bucket number itself.
- `feature_lookup_table_add` walks the key's chain. A node with an equal key
  is a fatal duplicate-feature error. Otherwise a new node for the key is
  appended at the tail. `feature_lookup_table_find` walks the chain and
  returns the value of the first node with an equal key. An absent key is a
  fatal unknown-feature error.

Modelling choices:

- A C string is its bytes without the NUL terminator (`Bytes = seq<bv8>`).
  `IsKey` says the string is non-empty and holds no NUL, which is what
  `hash_string` assumes.
- The seed reads `char` as signed, as on x86 and most ABIs. Bytes 0x80 and
  up sign-extend when converted to `uint32_t` (`CharToUint32`). When the
  key has one byte, the seed is its NUL terminator. The loop reads each
  byte as `unsigned char`.
- `uint16_t` values are the integers 0..65535 (`Uint16`). The final
  conversion of the 32-bit result to `uint16_t` is the value modulo 2^16.
- A chain is a sequence of `Node(key, value)`, head first. The table is an
  object whose `buckets` array holds the 65536 chains. `Add` updates that
  array in place.
- The `exit(EXIT_FAILURE)` paths become results: `Failure(DuplicateFeature(key))`
  for `Add` and `Fail(UnknownFeature(key))` for `Find`. On the failure
  path `Add` leaves the table unchanged.
- The table keeps an invariant, `WellFormed`: every node sits in the bucket
  its key hashes to, and no chain holds a key twice. `Add` preserves it.
  `Find` needs only the table's size.

The hash has a property at odds with the comment at
`phonologen/structures.c:9-10`, which asks that the entire string be hashed.
Each byte is shifted left by three per later byte, so after eleven more
bytes it has left the 32-bit word. The same holds for the seed. The hash of
a key of eleven bytes or more therefore depends only on its last eleven
bytes (`HashIgnoresAllButLastEleven`). Keys that differ only earlier all
fall into the same bucket. Lookups stay correct because chains compare
whole keys; only the spread over buckets suffers.

## Model

| member | source | states |
|---|---|---|
| Structures.HashString | phonologen/structures.c:8-19 | the loop of hash_string computes the specification hash `Hash(key)`: seed from the second character, shift-by-three-and-xor fold over every byte, upper half xored into the lower half, result in 0..65535 |
| Structures.HashOfOneByte | phonologen/structures.c:11-18 | a one-character key hashes to its own byte, because its seed is the NUL terminator |
| Structures.SeedOfOneByte | phonologen/structures.c:12-16 | for a one-character key the seed is zero, so the 32-bit accumulator ends as the byte |
| Structures.MixOfByte | phonologen/structures.c:17-18 | the final `result ^= result >> 16` and the truncation leave a value below 256 unchanged |
| Structures.FoldStep | phonologen/structures.c:14-15 | one iteration of the hash loop extends the fold by exactly the next byte |
| Structures.ShiftedVanishes | phonologen/structures.c:15 | eleven or more shifts left by three clear a 32-bit word |
| Structures.FoldDifference | phonologen/structures.c:12-16 | folds of one string from two seeds differ by the seeds' xor shifted once per byte |
| Structures.FoldAppend | phonologen/structures.c:14-16 | folding a concatenation is folding the second part from the accumulator the first part left |
| Structures.SeedForgotten | phonologen/structures.c:12-16 | after eleven bytes the accumulator no longer depends on the seed |
| Structures.FoldKeepsLastEleven | phonologen/structures.c:12-16 | the 32-bit accumulator of a string of eleven bytes or more is determined by its last eleven bytes alone |
| Structures.HashIgnoresAllButLastEleven | phonologen/structures.c:8-19 | two keys of at least eleven bytes with the same last eleven bytes get the same hash, whatever precedes them |
| Structures.ChainFind | phonologen/structures.c:53-59 | walking a chain gives a value only if a node with that key and value is in it, and gives none exactly when no node has the key |
| Structures.ChainFindAppendNew | phonologen/structures.c:30-47 | a node appended at the tail for a key the chain lacks is found with its value |
| Structures.ChainFindAppendOther | phonologen/structures.c:36-47 | appending at the tail does not change what any other key finds in the chain |
| Structures.ChainFindDistinct | phonologen/structures.c:54-57 | in a chain without repeated keys each node is the one its own key finds |
| Structures.Lookup | phonologen/structures.c:50-62 | find on a table value: Ok(v) only if the node (key, v) is in the key's bucket; the unknown-feature error exactly when no node of that bucket has the key |
| Structures.FindAfterAdd | phonologen/structures.c:25-62 | after adding a new key, find returns exactly the index stored |
| Structures.FindAfterAddOther | phonologen/structures.c:25-62 | adding a key leaves find's answer for every other key unchanged, including keys in the same bucket |
| Structures.AddPreservesWellFormed | phonologen/structures.c:25-48 | adding a key that is not present keeps every node in its key's bucket and keeps each chain free of repeated keys |
| Structures.StoredNodesAreFound | phonologen/structures.c:50-59 | in a well-formed table, find on any stored node's key returns that node's value |
| Structures.FeatureLookupTable.constructor | phonologen/structures.h:33-49 | the table starts with all 65536 buckets empty, which satisfies the invariant |
| Structures.FeatureLookupTable.Add | phonologen/structures.c:25-48 | a duplicate key is the fatal duplicate-feature error and changes nothing; otherwise one node (key, index) is appended at the tail of bucket Hash(key), its old nodes are kept, every other bucket is unchanged, and the invariant is preserved |
| Structures.FeatureLookupTable.Find | phonologen/structures.c:50-62 | walking the key's bucket gives the table's `Lookup`: the stored index, or the unknown-feature error when the key is absent; the table is not modified |

## Left out

- The I/O around the fatal errors is left out. The `fprintf` and `fputs` to stderr and the `exit(EXIT_FAILURE)` calls become error results; that the process stops is not modelled.
- The `malloc` failure branch of `feature_lookup_table_add` is left out. Memory is unbounded in the model.
- Pointers are not modelled. The table stores the caller's `key` pointer, not a copy, so a later change to that string would change the table's key. The model stores the key's bytes by value.
- The value is stored as `(void *)(uintptr_t) index` and read back with a cast to `uint16_t`. The model stores the `Uint16` index directly, since this round trip is the identity.
- The signedness of `char` is platform-defined. The model takes `char` as signed; on an unsigned-`char` platform the seed would be zero-extended.
- `hash_feature_matrix` has an empty body, so there is nothing to model.
- `free_global_structures` only deallocates memory, which a garbage-collected model has no counterpart for.
- The other tables and functions declared in `phonologen/structures.h` (`g_segment_list`, `g_segment_lookup_table`, `g_fmatrix_cache`, `hash_fmatrix`, the `*_strkey_*` and `fmatrix_*` functions) have no definitions in `structures.c`. They are not part of this model.
- The `.csv` parsing in `phonologen/parsing.c` and the program driver in `phonologen/phonologen.c` are not part of this model.
- The table is a single object rather than a process-wide global, so there is no concurrent access to model.
