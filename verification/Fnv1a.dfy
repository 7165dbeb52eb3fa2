/** The 32-bit FNV-1a hash from which V1 vendor and product IDs are made. */
module Fnv1a {
  import opened Basics
  import opened Bits

  const WORD: nat := 0x1_0000_0000

  /** A uint32_t: products wrap modulo 2^32. */
  type Word = w: int | 0 <= w < 0x1_0000_0000

  const OFFSET_BASIS: Word := 0x811c9dc5
  const PRIME: nat := 0x01000193
  /** The inverse of PRIME modulo 2^32. */
  const PRIME_INVERSE: nat := 0x359C449B

  function Absorb(hash: Word, b: Byte): Word {
    (Xor(hash, b) * PRIME) % WORD
  }

  function Release(hash: Word, b: Byte): Word {
    XorWord((hash * PRIME_INVERSE) % WORD, b);
    Xor((hash * PRIME_INVERSE) % WORD, b)
  }

  lemma XorWord(hash: Word, b: Byte)
    ensures Xor(hash, b) < WORD
  {
    Pow2Values();
    XorBounded(hash, b, 32);
  }

  function HashFrom(hash: Word, bytes: seq<Byte>): Word
    decreases |bytes|
  {
    if |bytes| == 0 then hash
    else Absorb(HashFrom(hash, bytes[..|bytes| - 1]), bytes[|bytes| - 1])
  }

  function Hash(bytes: seq<Byte>): Word {
    HashFrom(OFFSET_BASIS, bytes)
  }

  /** Runs the hash backwards over `suffix`. */
  function Unwind(hash: Word, suffix: seq<Byte>): Word
    decreases |suffix|
  {
    if |suffix| == 0 then hash
    else Unwind(Release(hash, suffix[|suffix| - 1]), suffix[..|suffix| - 1])
  }

  type Half = h: int | 0 <= h < 0x1_0000

  function Vid(hash: Word): Half {
    hash % 0x1_0000
  }

  function Pid(hash: Word): Half {
    (hash / 0x1_0000) % 0x1_0000
  }

  function Join(vid: Half, pid: Half): Word {
    pid * 0x1_0000 + vid
  }

  method SynthesizeVidPid(persistentId: seq<Byte>) returns (vid: Half, pid: Half)
    ensures Join(vid, pid) == Hash(persistentId)
    ensures vid == Hash(persistentId) % 0x1_0000 && pid == Hash(persistentId) / 0x1_0000
  {
    var hash := OFFSET_BASIS;
    for i := 0 to |persistentId|
      invariant hash == Hash(persistentId[..i])
    {
      assert persistentId[..i + 1][..i] == persistentId[..i];
      hash := (Xor(hash, persistentId[i]) * PRIME) % WORD;
    }
    assert persistentId[..|persistentId|] == persistentId;
    vid, pid := Vid(hash), Pid(hash);
  }

  lemma MultiplyThenInvert(x: Word)
    ensures (((x * PRIME) % WORD) * PRIME_INVERSE) % WORD == x
  {
    var r, q := (x * PRIME) % WORD, (x * PRIME) / WORD;
    assert x * PRIME == q * WORD + r;
  }

  lemma InvertThenMultiply(x: Word)
    ensures (((x * PRIME_INVERSE) % WORD) * PRIME) % WORD == x
  {
    var r, q := (x * PRIME_INVERSE) % WORD, (x * PRIME_INVERSE) / WORD;
    assert x * PRIME_INVERSE == q * WORD + r;
  }

  /** Each byte step is a bijection on 32-bit words. */
  lemma AbsorbBijective(hash: Word, b: Byte)
    ensures Release(Absorb(hash, b), b) == hash
    ensures Absorb(Release(hash, b), b) == hash
  {
    XorWord(hash, b);
    MultiplyThenInvert(Xor(hash, b));
    XorCancels(hash, b);
    InvertThenMultiply(hash);
    XorCancels((hash * PRIME_INVERSE) % WORD, b);
  }

  lemma AbsorbSeparates(hash: Word, b: Byte, c: Byte)
    requires b != c
    ensures Absorb(hash, b) != Absorb(hash, c)
  {
    XorWord(hash, b);
    XorWord(hash, c);
    MultiplyThenInvert(Xor(hash, b));
    MultiplyThenInvert(Xor(hash, c));
    XorCancels(hash, b);
    XorCancels(hash, c);
  }

  lemma {:induction false} HashConcat(hash: Word, a: seq<Byte>, b: seq<Byte>)
    ensures HashFrom(hash, a + b) == HashFrom(HashFrom(hash, a), b)
    decreases |b|
  {
    if |b| == 0 {
      assert a + b == a;
    } else {
      HashConcat(hash, a, b[..|b| - 1]);
      assert (a + b)[..|a + b| - 1] == a + b[..|b| - 1];
    }
  }

  lemma {:induction false} UnwindHash(hash: Word, suffix: seq<Byte>)
    ensures Unwind(HashFrom(hash, suffix), suffix) == hash
    decreases |suffix|
  {
    if |suffix| > 0 {
      var rest := suffix[..|suffix| - 1];
      AbsorbBijective(HashFrom(hash, rest), suffix[|suffix| - 1]);
      UnwindHash(hash, rest);
    }
  }

  lemma {:induction false} JoinSplit(hash: Word)
    ensures Join(Vid(hash), Pid(hash)) == hash
  {
  }

  lemma {:induction false} XorZero(a: nat)
    ensures Xor(a, 0) == a
  {
    if a > 0 {
      XorZero(a / 2);
    }
  }

  lemma BasisXorA()
    ensures Xor(0x811c9dc5, 97) == 0x811c9da4
  {
    XorZero(0x102393b);
    assert Xor(0x2047277, 1) == 0x2047276;
    assert Xor(0x408e4ee, 3) == 0x408e4ed;
    assert Xor(0x811c9dc, 6) == 0x811c9da;
    assert Xor(0x102393b8, 12) == 0x102393b4;
    assert Xor(0x20472771, 24) == 0x20472769;
    assert Xor(0x408e4ee2, 48) == 0x408e4ed2;
    assert Xor(0x811c9dc5, 97) == 0x811c9da4;
  }

  lemma ProductA()
    ensures (0x811c9da4 * 0x01000193) % 0x1_0000_0000 == 0xe40c292c
  {
    assert 0x811c9da4 * 0x01000193 == 0x811d68 * 0x1_0000_0000 + 0xe40c292c;
  }

  lemma AbsorbIs(hash: Word, b: Byte, x: Word)
    requires Xor(hash, b) == x
    ensures Absorb(hash, b) == (x * 0x01000193) % 0x1_0000_0000
  {
  }

  /** The published values of FNV-1a for the empty string and for "a". */
  lemma PublishedValues(text: seq<Byte>)
    ensures |text| == 0 ==> Hash(text) == 0x811c9dc5
    ensures |text| == 1 && text[0] == 97 ==> Hash(text) == 0xe40c292c
  {
    if |text| == 1 && text[0] == 97 {
      BasisXorA();
      ProductA();
      AbsorbIs(OFFSET_BASIS, text[0], 0x811c9da4);
      assert HashFrom(OFFSET_BASIS, text[..0]) == OFFSET_BASIS;
    }
  }

  lemma Halves(hash: Word)
    ensures Vid(hash) == hash % 0x1_0000 && Pid(hash) == hash / 0x1_0000
  {
  }

  /** The hash state after any prefix is recoverable from the two IDs and the suffix. */
  lemma {:induction false} PrefixRecovered(prefix: seq<Byte>, suffix: seq<Byte>)
    ensures var h := Hash(prefix + suffix);
      Unwind(Join(Vid(h), Pid(h)), suffix) == Hash(prefix)
  {
    JoinSplit(Hash(prefix + suffix));
    HashConcat(OFFSET_BASIS, prefix, suffix);
    UnwindHash(Hash(prefix), suffix);
  }

  /** Two IDs that share a suffix get the same pair exactly when their beginnings hash alike. */
  lemma SharedSuffix(a: seq<Byte>, b: seq<Byte>, suffix: seq<Byte>)
    ensures var h, k := Hash(a + suffix), Hash(b + suffix);
      (Vid(h) == Vid(k) && Pid(h) == Pid(k)) <==> Hash(a) == Hash(b)
  {
    PrefixRecovered(a, suffix);
    PrefixRecovered(b, suffix);
    HashConcat(OFFSET_BASIS, a, suffix);
    HashConcat(OFFSET_BASIS, b, suffix);
  }

  /** Persistent IDs that differ in exactly one byte always get different (vid, pid) pairs. */
  lemma OneByteSeparates(prefix: seq<Byte>, b: Byte, c: Byte, suffix: seq<Byte>)
    requires b != c
    ensures var h, k := Hash(prefix + [b] + suffix), Hash(prefix + [c] + suffix);
      Vid(h) != Vid(k) || Pid(h) != Pid(k)
  {
    AbsorbSeparates(Hash(prefix), b, c);
    SharedSuffix(prefix + [b], prefix + [c], suffix);
  }
}
