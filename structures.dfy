/** The feature-name lookup table of phonologen: a 16-bit string hash and a
    separate-chaining hash table with 65536 buckets, mapping feature names to
    their indices in the feature list. */
module Structures {

  /** Number of buckets: one per value of the 16-bit hash (UINT16_MAX + 1). */
  const HashTableSize: nat := 0x1_0000

  /** The values of `uint16_t`. */
  type Uint16 = x: int | 0 <= x < 0x1_0000

  /** A C string's characters, without its NUL terminator. */
  type Bytes = seq<bv8>

  /** What the hash assumes of its argument: a non-empty C string, so no byte
      of it is NUL. */
  predicate IsKey(s: Bytes) {
    |s| >= 1 && forall i | 0 <= i < |s| :: s[i] != 0
  }

  // ---------------------------------------------------------------------
  // hash_string

  /** A `char` converted to `uint32_t`, with `char` signed: bytes from 0x80
      up are negative and sign-extend. */
  function CharToUint32(c: bv8): bv32
  {
    if c < 0x80 then c as bv32 else c as bv32 | 0xFFFF_FF00
  }

  /** The accumulator's seed: the string's second character, which is the NUL
      terminator when the string has one character. */
  function Seed(key: Bytes): bv32
    requires |key| >= 1
  {
    CharToUint32(if |key| >= 2 then key[1] else 0)
  }

  /** One shift left by three, modulo 2^32. */
  function Shl3(x: bv32): bv32
  {
    x << 3
  }

  /** The accumulator after folding in the bytes of `s`, first to last, each
      step shifting left by three (modulo 2^32) and xoring in the next byte,
      read as an unsigned char. */
  function FoldBytes(seed: bv32, s: Bytes): bv32
  {
    if s == [] then seed
    else Shl3(FoldBytes(seed, s[..|s| - 1])) ^ s[|s| - 1] as bv32
  }

  /** `result ^= result >> 16`: the upper half xored into the lower half. */
  function Mix(r: bv32): bv32
  {
    r ^ (r >> 16)
  }

  /** The 16-bit hash of a key: the mixed accumulator converted to
      `uint16_t`, that is, taken modulo 2^16. */
  function Hash(key: Bytes): (h: Uint16)
    requires |key| >= 1
  {
    Mix(FoldBytes(Seed(key), key)) as int % 0x1_0000
  }

  /** A one-byte key hashes to that byte: its seed is the NUL terminator. */
  lemma HashOfOneByte(c: bv8)
    ensures Hash([c]) == c as int
  {
    SeedOfOneByte(c);
    MixOfByte(c);
  }

  /** A one-byte key's seed is zero, so its fold is the byte itself. */
  lemma SeedOfOneByte(c: bv8)
    ensures FoldBytes(Seed([c]), [c]) == c as bv32
  {
    assert [c][..0] == [];
    assert Seed([c]) == 0;
  }

  /** Mixing a value below 2^16 leaves it as it is. */
  lemma MixOfByte(c: bv8)
    ensures Mix(c as bv32) as int == c as int
  {
    assert Mix(c as bv32) == c as bv32;
  }

  /** One turn of the loop of hash_string extends the fold by one byte. */
  lemma FoldStep(seed: bv32, s: Bytes, i: nat)
    requires i < |s|
    ensures FoldBytes(seed, s[..i + 1]) == (FoldBytes(seed, s[..i]) << 3) ^ s[i] as bv32
  {
    assert s[..i + 1][..i] == s[..i];
  }

  /** hash_string, walking the string byte by byte as the source does. */
  method HashString(key: Bytes) returns (h: Uint16)
    requires IsKey(key)
    ensures h == Hash(key)
  {
    var result := CharToUint32(if |key| >= 2 then key[1] else 0);
    var i := 0;
    while i < |key|
      invariant 0 <= i <= |key|
      invariant result == FoldBytes(Seed(key), key[..i])
    {
      FoldStep(Seed(key), key, i);
      result := (result << 3) ^ key[i] as bv32;
      i := i + 1;
    }
    assert key[..i] == key;
    result := Mix(result);
    h := result as int % 0x1_0000;
  }

  /** The seed shifted left by three `n` times, with the bits that leave the
      32-bit word lost. */
  function Shifted(x: bv32, n: nat): bv32
  {
    if n == 0 then x else Shl3(Shifted(x, n - 1))
  }

  /** 33 bit positions exceed the word: eleven shifts by three clear it. */
  lemma ElevenShifts(x: bv32)
    ensures Shl3(Shl3(Shl3(Shl3(Shl3(Shl3(Shl3(Shl3(Shl3(Shl3(Shl3(x))))))))))) == 0
  {
  }

  /** Eleven shifts by three move every bit out of a 32-bit word. */
  lemma {:induction false} ShiftedVanishes(x: bv32, n: nat)
    requires n >= 11
    ensures Shifted(x, n) == 0
  {
    if n == 11 {
      assert Shifted(x, 1) == Shl3(x);
      assert Shifted(x, 2) == Shl3(Shifted(x, 1));
      assert Shifted(x, 3) == Shl3(Shifted(x, 2));
      assert Shifted(x, 4) == Shl3(Shifted(x, 3));
      assert Shifted(x, 5) == Shl3(Shifted(x, 4));
      assert Shifted(x, 6) == Shl3(Shifted(x, 5));
      assert Shifted(x, 7) == Shl3(Shifted(x, 6));
      assert Shifted(x, 8) == Shl3(Shifted(x, 7));
      assert Shifted(x, 9) == Shl3(Shifted(x, 8));
      assert Shifted(x, 10) == Shl3(Shifted(x, 9));
      ElevenShifts(x);
    } else {
      ShiftedVanishes(x, n - 1);
    }
  }

  /** Two accumulators that take in the same byte differ afterwards by their
      old difference shifted once. */
  lemma XorSameByte(x: bv32, y: bv32, c: bv32)
    ensures (Shl3(x) ^ c) ^ (Shl3(y) ^ c) == Shl3(x ^ y)
  {
  }

  /** Folds of one string from two seeds differ by the seeds' difference,
      shifted once per byte. */
  lemma {:induction false} FoldDifference(a: bv32, b: bv32, s: Bytes)
    ensures FoldBytes(a, s) ^ FoldBytes(b, s) == Shifted(a ^ b, |s|)
  {
    if s != [] {
      var p := s[..|s| - 1];
      FoldDifference(a, b, p);
      XorSameByte(FoldBytes(a, p), FoldBytes(b, p), s[|s| - 1] as bv32);
    }
  }

  /** Words whose xor is zero are equal. */
  lemma XorZero(x: bv32, y: bv32)
    ensures x ^ y == 0 ==> x == y
  {
  }

  /** Folding a concatenation folds the second part from where the first
      left the accumulator. */
  lemma {:induction false} FoldAppend(seed: bv32, p: Bytes, q: Bytes)
    ensures FoldBytes(seed, p + q) == FoldBytes(FoldBytes(seed, p), q)
  {
    if q == [] {
      assert p + q == p;
    } else {
      var q' := q[..|q| - 1];
      assert (p + q)[..|p + q| - 1] == p + q';
      FoldAppend(seed, p, q');
    }
  }

  /** Once eleven bytes have been folded in, nothing of the seed is left. */
  lemma SeedForgotten(seed: bv32, q: Bytes)
    requires |q| >= 11
    ensures FoldBytes(seed, q) == FoldBytes(0, q)
  {
    FoldDifference(seed, 0, q);
    ShiftedVanishes(seed ^ 0, |q|);
    XorZero(FoldBytes(seed, q), FoldBytes(0, q));
  }

  /** The 32-bit fold of a string of eleven bytes or more depends only on its
      last eleven bytes, not on the seed nor on the bytes before them. */
  lemma FoldKeepsLastEleven(seed: bv32, s: Bytes)
    requires |s| >= 11
    ensures FoldBytes(seed, s) == FoldBytes(0, s[|s| - 11..])
  {
    var p, q := s[..|s| - 11], s[|s| - 11..];
    assert s == p + q;
    FoldAppend(seed, p, q);
    SeedForgotten(FoldBytes(seed, p), q);
  }

  /** Two keys of at least eleven bytes that end in the same eleven bytes
      hash to the same bucket, whatever comes before. */
  lemma HashIgnoresAllButLastEleven(k1: Bytes, k2: Bytes)
    requires IsKey(k1) && IsKey(k2) && |k1| >= 11 && |k2| >= 11
    requires k1[|k1| - 11..] == k2[|k2| - 11..]
    ensures Hash(k1) == Hash(k2)
  {
    FoldKeepsLastEleven(Seed(k1), k1);
    FoldKeepsLastEleven(Seed(k2), k2);
  }

  // ---------------------------------------------------------------------
  // The chains of g_feature_lookup_table, as values

  /** A chain node: a feature name and its index in the feature list. */
  datatype Node = Node(key: Bytes, value: Uint16)

  /** A bucket's linked list, head first. */
  type Chain = seq<Node>

  /** The fatal errors of the table, each of which ends the program. */
  datatype Error = DuplicateFeature(key: Bytes) | UnknownFeature(key: Bytes)

  datatype Option<T> = None | Some(value: T)

  datatype Result<T> = Ok(value: T) | Fail(error: Error)

  datatype Outcome = Pass | Failure(error: Error)

  /** Walks a chain from its head and gives the value of the first node whose
      key equals `key`, if any. */
  function ChainFind(chain: Chain, key: Bytes): (r: Option<Uint16>)
    ensures r.Some? ==> Node(key, r.value) in chain
    ensures r.None? <==> forall n | n in chain :: n.key != key
  {
    if chain == [] then None
    else if chain[0].key == key then Some(chain[0].value)
    else ChainFind(chain[1..], key)
  }

  /** Appending a node for a key the chain lacks makes that key found with
      the new value. */
  lemma {:induction false} ChainFindAppendNew(chain: Chain, key: Bytes, v: Uint16)
    requires ChainFind(chain, key).None?
    ensures ChainFind(chain + [Node(key, v)], key) == Some(v)
  {
    if chain != [] {
      assert (chain + [Node(key, v)])[1..] == chain[1..] + [Node(key, v)];
      ChainFindAppendNew(chain[1..], key, v);
    }
  }

  /** Appending a node at the tail does not change what any other key finds. */
  lemma {:induction false} ChainFindAppendOther(chain: Chain, key: Bytes, v: Uint16, other: Bytes)
    requires other != key
    ensures ChainFind(chain + [Node(key, v)], other) == ChainFind(chain, other)
  {
    if chain != [] {
      assert (chain + [Node(key, v)])[1..] == chain[1..] + [Node(key, v)];
      ChainFindAppendOther(chain[1..], key, v, other);
    }
  }

  /** No two nodes of the chain have equal keys. */
  predicate DistinctKeys(chain: Chain) {
    forall i, j | 0 <= i < j < |chain| :: chain[i].key != chain[j].key
  }

  /** In a chain of distinct keys, every node is the one its key finds. */
  lemma {:induction false} ChainFindDistinct(chain: Chain, j: nat)
    requires DistinctKeys(chain) && j < |chain|
    ensures ChainFind(chain, chain[j].key) == Some(chain[j].value)
  {
    if j > 0 {
      assert chain[0].key != chain[j].key;
      assert DistinctKeys(chain[1..]);
      assert chain[1..][j - 1] == chain[j];
      ChainFindDistinct(chain[1..], j - 1);
    }
  }

  // ---------------------------------------------------------------------
  // The whole table, as a value

  /** The table's invariant: 65536 chains, each node sitting in the bucket
      its key hashes to, no chain holding a key twice. */
  predicate WellFormed(t: seq<Chain>) {
    |t| == HashTableSize &&
    (forall b, j | 0 <= b < |t| && 0 <= j < |t[b]| ::
       IsKey(t[b][j].key) && Hash(t[b][j].key) == b) &&
    (forall b | 0 <= b < |t| :: DistinctKeys(t[b]))
  }

  /** feature_lookup_table_find on a table value: the index stored for the
      key in its bucket, or the fatal unknown-feature error. */
  function Lookup(t: seq<Chain>, key: Bytes): (r: Result<Uint16>)
    requires |t| == HashTableSize && IsKey(key)
    ensures r.Ok? ==> Node(key, r.value) in t[Hash(key)]
    ensures r.Fail? <==> forall n | n in t[Hash(key)] :: n.key != key
    ensures r.Fail? ==> r.error == UnknownFeature(key)
  {
    match ChainFind(t[Hash(key)], key)
    case Some(v) => Ok(v)
    case None => Fail(UnknownFeature(key))
  }

  /** The table after appending a node for `key` at the tail of its bucket. */
  function Inserted(t: seq<Chain>, key: Bytes, index: Uint16): (r: seq<Chain>)
    requires |t| == HashTableSize && |key| >= 1
  {
    t[Hash(key) := t[Hash(key)] + [Node(key, index)]]
  }

  /** After a successful add, find gives back exactly the index stored. */
  lemma FindAfterAdd(t: seq<Chain>, key: Bytes, index: Uint16)
    requires |t| == HashTableSize && IsKey(key) && Lookup(t, key).Fail?
    ensures Lookup(Inserted(t, key, index), key) == Ok(index)
  {
    ChainFindAppendNew(t[Hash(key)], key, index);
  }

  /** An add leaves what find gives for every other key as it was, even for
      keys that share the bucket. */
  lemma FindAfterAddOther(t: seq<Chain>, key: Bytes, index: Uint16, other: Bytes)
    requires |t| == HashTableSize && IsKey(key) && IsKey(other) && other != key
    ensures Lookup(Inserted(t, key, index), other) == Lookup(t, other)
  {
    if Hash(other) == Hash(key) {
      ChainFindAppendOther(t[Hash(key)], key, index, other);
    }
  }

  /** Adding a key that is not yet present keeps the table well formed. */
  lemma AddPreservesWellFormed(t: seq<Chain>, key: Bytes, index: Uint16)
    requires WellFormed(t) && IsKey(key) && Lookup(t, key).Fail?
    ensures WellFormed(Inserted(t, key, index))
  {
    var h := Hash(key);
    var c := t[h] + [Node(key, index)];
    forall i, j | 0 <= i < j < |c|
      ensures c[i].key != c[j].key
    {
      if j == |c| - 1 {
        assert c[i] in t[h];
      } else {
        assert DistinctKeys(t[h]);
      }
    }
  }

  /** In a well-formed table every stored node is found by its own key. */
  lemma StoredNodesAreFound(t: seq<Chain>, b: nat, j: nat)
    requires WellFormed(t) && b < |t| && j < |t[b]|
    ensures Lookup(t, t[b][j].key) == Ok(t[b][j].value)
  {
    ChainFindDistinct(t[b], j);
  }

  // ---------------------------------------------------------------------
  // g_feature_lookup_table, updated in place

  /** The global table: an array of 65536 bucket chains, all empty at start. */
  class FeatureLookupTable {
    const buckets: array<Chain>

    ghost predicate Valid()
      reads buckets
    {
      buckets.Length == HashTableSize && WellFormed(buckets[..])
    }

    /** A zero-initialised table: every bucket's chain is empty. */
    constructor ()
      ensures Valid() && fresh(buckets)
      ensures forall b | 0 <= b < buckets.Length :: buckets[b] == []
    {
      buckets := new Chain[HashTableSize](_ => []);
    }

    /** feature_lookup_table_add: walks the key's bucket, fails on a node
        with an equal key, otherwise appends a node for the key at the
        tail. */
    method Add(key: Bytes, index: Uint16) returns (r: Outcome)
      requires buckets.Length == HashTableSize && IsKey(key)
      modifies buckets
      ensures old(Valid()) ==> Valid()
      ensures r == if Lookup(old(buckets[..]), key).Ok? then Failure(DuplicateFeature(key)) else Pass
      ensures r.Pass? ==> buckets[Hash(key)] == old(buckets[Hash(key)]) + [Node(key, index)]
      ensures r.Failure? ==> buckets[..] == old(buckets[..])
      ensures forall b | 0 <= b < buckets.Length && b != Hash(key) :: buckets[b] == old(buckets[b])
      ensures buckets[..] == if r.Pass? then Inserted(old(buckets[..]), key, index) else old(buckets[..])
    {
      var kh := HashString(key);
      var chain := buckets[kh];
      var rest := chain;
      while rest != []
        invariant ChainFind(rest, key) == ChainFind(chain, key)
        decreases |rest|
      {
        if rest[0].key == key {
          return Failure(DuplicateFeature(key));
        }
        rest := rest[1..];
      }
      ghost var before := buckets[..];
      if WellFormed(before) {
        AddPreservesWellFormed(before, key, index);
      }
      buckets[kh] := chain + [Node(key, index)];
      assert buckets[..] == Inserted(before, key, index);
      r := Pass;
    }

    /** feature_lookup_table_find: walks the key's bucket and gives the index
        of the node with an equal key; a key that is absent is fatal. */
    method Find(key: Bytes) returns (r: Result<Uint16>)
      requires buckets.Length == HashTableSize && IsKey(key)
      ensures r == Lookup(buckets[..], key)
      ensures r.Ok? ==> Node(key, r.value) in buckets[Hash(key)]
      ensures r.Fail? ==> r.error == UnknownFeature(key)
    {
      var kh := HashString(key);
      var bucket := buckets[kh];
      while bucket != []
        invariant ChainFind(bucket, key) == ChainFind(buckets[kh], key)
        decreases |bucket|
      {
        if bucket[0].key == key {
          return Ok(bucket[0].value);
        }
        bucket := bucket[1..];
      }
      r := Fail(UnknownFeature(key));
    }
  }
}
