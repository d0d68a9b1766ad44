/** Buffered BLAKE2b: bytes and words packed into a lazily flushed block buffer give the same
    digest as the block-wise definition of section 3.3 of RFC 7693, however the message is
    split into updates. The compression function's rounds are a parameter. */
module Blake2b {
  import opened Limbs
  import opened Bytes

  type Hash = h: seq<u64> | |h| == 8 witness [0, 0, 0, 0, 0, 0, 0, 0]

  /** The mixing of `blake2b_compress`: from the chain value, the block's 16 words, the two
      halves of the byte counter and the last-block flag to the next chain value. */
  type Mixing = (Hash, seq<u64>, u64, u64, bool) -> Hash

  const WORD: nat := 0x1_0000_0000_0000_0000

  // -------------------------------------------------------------------------------------
  // The words of a zero-padded block

  function ByteAt(p: seq<u8>, i: nat): u8 {
    if i < |p| then p[i] else 0
  }

  /** The little-endian number in k bytes of p, zeros standing in past its end. */
  function Word(p: seq<u8>, pos: nat, k: nat): (r: nat)
    ensures r < Pow256(k)
    decreases k
  {
    if k == 0 then 0 else ByteAt(p, pos) + 256 * Word(p, pos + 1, k - 1)
  }

  function WordAt(p: seq<u8>, w: nat): u64 {
    WordFits();
    Word(p, 8 * w, 8)
  }

  lemma WordFits()
    ensures Pow256(8) == WORD
  {
    assert Pow256(4) == 0x1_0000_0000;
  }

  function Words(p: seq<u8>): (r: seq<u64>)
    ensures |r| == 16 && forall w :: 0 <= w < 16 ==> r[w] == WordAt(p, w)
  {
    seq(16, w requires 0 <= w < 16 => WordAt(p, w))
  }

  /** A word depends on its own bytes only. */
  lemma {:induction false} WordLocal(p: seq<u8>, q: seq<u8>, pos: nat, d: int, k: nat)
    requires pos + d >= 0
    requires forall i :: pos <= i < pos + k ==> ByteAt(p, i) == ByteAt(q, i + d)
    ensures Word(p, pos, k) == Word(q, pos + d, k)
    decreases k
  {
    if k > 0 { WordLocal(p, q, pos + 1, d, k - 1); }
  }

  /** A word that p ends in is below its first missing byte. */
  lemma {:induction false} WordBelow(p: seq<u8>, pos: nat, k: nat)
    requires pos <= |p| <= pos + k
    ensures Word(p, pos, k) < Pow256(|p| - pos)
    decreases k
  {
    if |p| == pos {
      WordPastEnd(p, pos, k);
    } else {
      WordBelow(p, pos + 1, k - 1);
    }
  }

  lemma {:induction false} WordPastEnd(p: seq<u8>, pos: nat, k: nat)
    requires pos >= |p|
    ensures Word(p, pos, k) == 0
    decreases k
  {
    if k > 0 { WordPastEnd(p, pos + 1, k - 1); }
  }

  /** One more byte adds that byte at its place. */
  lemma {:induction false} WordAppend(p: seq<u8>, x: u8, pos: nat, k: nat)
    requires pos <= |p| < pos + k
    ensures Word(p + [x], pos, k) == Word(p, pos, k) + x * Pow256(|p| - pos)
    decreases k
  {
    if |p| == pos {
      WordPastEnd(p + [x], pos + 1, k - 1);
      WordPastEnd(p, pos + 1, k - 1);
    } else {
      WordAppend(p, x, pos + 1, k - 1);
      Scale(Word(p, pos + 1, k - 1), x, Pow256(|p| - pos - 1));
    }
  }

  lemma Scale(v: int, x: int, p: int)
    ensures 256 * (v + x * p) == 256 * v + x * (256 * p)
  {
  }

  /** `word | x << 8k` for a word with no bit at or above 8k: the bits do not overlap. */
  function OrAbove(word: nat, x: u8, k: nat): nat
    requires word < Pow256(k)
  {
    word + x * Pow256(k)
  }

  /** Bytes appended within word w leave the other words alone. */
  lemma OneWordChanges(p: seq<u8>, b: seq<u8>, w: nat)
    requires 8 * w <= |p| && |p| + |b| <= 8 * w + 8 && w < 16
    ensures Words(p + b) == Words(p)[w := WordAt(p + b, w)]
  {
    hide Pow256, Word;
    forall v | 0 <= v < 16 && v != w
      ensures WordAt(p + b, v) == WordAt(p, v)
    {
      WordLocal(p, p + b, 8 * v, 0, 8);
    }
  }

  /** Appending a byte only sets bits that are clear. */
  lemma AppendByte(p: seq<u8>, x: u8, w: nat)
    requires |p| < 128 && 8 * w <= |p| < 8 * w + 8
    ensures WordAt(p, w) < Pow256(|p| - 8 * w)
    ensures OrAbove(WordAt(p, w), x, |p| - 8 * w) == WordAt(p + [x], w)
    ensures Words(p + [x]) == Words(p)[w := WordAt(p + [x], w)]
  {
    hide Pow256, Word, Words;
    WordBelow(p, 8 * w, 8);
    WordAppend(p, x, 8 * w, 8);
    OneWordChanges(p, [x], w);
  }

  /** Appending eight bytes at a word boundary stores them as one word. */
  lemma AppendWord(p: seq<u8>, b: seq<u8>, w: nat)
    requires |p| == 8 * w && w < 16 && |b| == 8
    ensures Words(p + b) == Words(p)[w := WordAt(b, 0)]
  {
    hide Pow256, Word, Words;
    WordLocal(b, p + b, 0, 8 * w, 8);
    OneWordChanges(p, b, w);
  }

  // -------------------------------------------------------------------------------------
  // RFC 7693

  function Low(t: nat): u64 {
    t % WORD
  }

  function High(t: nat): u64 {
    t / WORD % WORD
  }

  /** The chain value after whole blocks none of which is the last. */
  function Chain(f: Mixing, h0: Hash, blocks: seq<u8>): Hash {
    if |blocks| < 128 then h0
    else
      var n := |blocks|;
      f(Chain(f, h0, blocks[..n - 128]), Words(blocks[n - 128..]), Low(n), High(n), false)
  }

  /** How many bytes are compressed before the last block. */
  function BeforeLast(n: nat): nat {
    if n == 0 then 0 else (n - 1) / 128 * 128
  }

  /** The chain value after the last block, padded with zeros. */
  function Final(f: Mixing, h0: Hash, msg: seq<u8>): Hash {
    var n := BeforeLast(|msg|);
    f(Chain(f, h0, msg[..n]), Words(msg[n..]), Low(|msg|), High(|msg|), true)
  }

  /** The first bytes of the final chain value. */
  function Digest(h: Hash, size: nat): (r: seq<u8>)
  {
    seq(if size < 64 then size else 64, i requires 0 <= i < 64 => HashByte(h, i))
  }

  /** The counter of `blake2b_compress`: the carry shows as a sum below what was added. */
  lemma CounterStep(n: nat, y: nat)
    requires y <= 128
    ensures Low(n + y) == (Low(n) + y) % WORD
    ensures High(n + y) == if Low(n + y) < y then (High(n) + 1) % WORD else High(n)
  {
    var q := n / WORD;
    assert n == q * WORD + Low(n);
    if Low(n) + y < WORD {
      assert (n + y) / WORD == q && (n + y) % WORD == Low(n) + y;
    } else {
      assert (n + y) / WORD == q + 1 && (n + y) % WORD == Low(n) + y - WORD;
    }
  }

  class Context {
    var hash: Hash
    var input_offset0: u64
    var input_offset1: u64
    const input: array<u64>
    var input_idx: nat
    const hash_size: nat
    const mixing: Mixing
    ghost const h0: Hash
    ghost var done: seq<u8>      // the bytes compressed so far, whole blocks
    ghost var blocks: nat        // how many
    ghost var pending: seq<u8>   // the bytes waiting in the buffer

    /** Everything passed to the context so far. */
    ghost function Message(): seq<u8>
      reads this
    {
      done + pending
    }

    /** The chain value and the counter cover exactly the compressed blocks. */
    ghost predicate Chained()
      reads this
    {
      && input.Length == 16
      && |done| == 128 * blocks && hash == Chain(mixing, h0, done)
      && input_offset0 == Low(|done|) && input_offset1 == High(|done|)
    }

    /** The buffer holds the waiting bytes and zeros. */
    ghost predicate Buffered()
      requires input.Length == 16
      reads this, input
    {
      input_idx == |pending| <= 128 && input[..] == Words(pending)
    }

    /** Between calls: a full block waits until more input shows that it is not the last. */
    ghost predicate Valid()
      reads this, input
    {
      Chained() && Buffered() && (pending == [] ==> done == [])
    }

    /** `crypto_blake2b_keyed_init`, given the initial chain value; a key is a first block. */
    constructor (mixing: Mixing, start: Hash, hash_size: nat, key: seq<u8>)
      requires |key| <= 64
      ensures Valid() && Message() == KeyBlock(key) && fresh(input)
      ensures this.mixing == mixing && h0 == start && this.hash_size == hash_size
    {
      this.mixing, hash, h0, this.hash_size := mixing, start, start, hash_size;
      input_offset0, input_offset1 := 0, 0;
      input_idx := if |key| > 0 then 128 else 0;
      var words := Words(KeyBlock(key));
      input := new u64[16](i requires 0 <= i < 16 => words[i]);
      done, blocks, pending := [], 0, KeyBlock(key);
      new;
      assert input[..] == words;
      assert done + pending == pending;
    }

    /** The counter, then the mixing of the buffer as it stands. */
    method Compress(last: bool)
      requires Chained() && Buffered()
      requires last || input_idx == 128
      modifies this`hash, this`input_offset0, this`input_offset1, this`done, this`blocks, this`pending
      ensures input_offset0 == Low(|old(Message())|) && input_offset1 == High(|old(Message())|)
      ensures hash == mixing(old(hash), old(input[..]), input_offset0, input_offset1, last)
      ensures !last ==> Chained() && done == old(Message()) && pending == []
      ensures last ==> done == old(done) && pending == old(pending)
    {
      CounterStep(|done|, input_idx);
      hide Low, High, Words;
      input_offset0 := (input_offset0 + input_idx) % WORD;
      if input_offset0 < input_idx {
        input_offset1 := (input_offset1 + 1) % WORD;
      }
      hash := mixing(hash, input[..], input_offset0, input_offset1, last);
      if !last {
        assert (done + pending)[..|done|] == done && (done + pending)[|done|..] == pending;
        done, blocks, pending := done + pending, blocks + 1, [];
      }
    }

    /** `input[word] |= (u64)message[i] << ((byte + i) << 3)`, i from 0 to |bytes|. */
    method OrIntoWord(bytes: seq<u8>)
      requires Chained() && Buffered() && input_idx % 8 + |bytes| <= 8 && input_idx % 8 != 0
      modifies this`input_idx, this`pending, input
      ensures Chained() && Buffered() && pending == old(pending) + bytes
    {
      hide Words, WordAt, Chain, Low, High;
      var word := input_idx / 8;
      var byte := input_idx % 8;
      for i := 0 to |bytes|
        invariant Chained() && input_idx == old(input_idx)
        invariant pending == old(pending) + bytes[..i] && input[..] == Words(pending)
      {
        AppendByte(pending, bytes[i], word);
        input[word] := OrAbove(input[word], bytes[i], byte + i);
        pending := pending + [bytes[i]];
        assert bytes[..i + 1] == bytes[..i] + [bytes[i]];
      }
      assert bytes[..|bytes|] == bytes;
      input_idx := input_idx + |bytes|;
    }

    /** `load64_le_buf` of whole words into the buffer at word `at`. */
    method LoadWords(at: nat, bytes: seq<u8>)
      requires Chained() && Buffered() && |bytes| % 8 == 0 && input_idx + |bytes| <= 128
      requires bytes != [] ==> 8 * at == input_idx
      modifies this`input_idx, this`pending, input
      ensures Chained() && Buffered() && pending == old(pending) + bytes
    {
      hide Words, WordAt, Chain, Low, High;
      var nb_words := |bytes| / 8;
      for i := 0 to nb_words
        invariant Chained() && input_idx == old(input_idx)
        invariant pending == old(pending) + bytes[..8 * i] && input[..] == Words(pending)
      {
        AppendWord(pending, bytes[8 * i..8 * i + 8], at + i);
        input[at + i] := WordAt(bytes[8 * i..8 * i + 8], 0);
        pending := pending + bytes[8 * i..8 * i + 8];
        assert bytes[..8 * (i + 1)] == bytes[..8 * i] + bytes[8 * i..8 * i + 8];
      }
      assert bytes[..8 * nb_words] == bytes;
      input_idx := input_idx + 8 * nb_words;
    }

    /** The remaining bytes, each with its own word and byte index. */
    method OrBytes(bytes: seq<u8>)
      requires Chained() && Buffered() && input_idx + |bytes| <= 128
      modifies this`input_idx, this`pending, input
      ensures Chained() && Buffered() && pending == old(pending) + bytes
    {
      hide Words, WordAt, Chain, Low, High;
      for i := 0 to |bytes|
        invariant Chained() && Buffered() && input_idx == old(input_idx) + i
        invariant pending == old(pending) + bytes[..i]
      {
        var word := input_idx / 8;
        var byte := input_idx % 8;
        AppendByte(pending, bytes[i], word);
        input[word] := OrAbove(input[word], bytes[i], byte);
        input_idx := input_idx + 1;
        pending := pending + [bytes[i]];
        assert bytes[..i + 1] == bytes[..i] + [bytes[i]];
      }
      assert bytes[..|bytes|] == bytes;
    }

    /** `load64_le_buf(ctx->input, message, 16)` over a block that has been compressed. */
    method LoadBlock(block: seq<u8>)
      requires Chained() && pending == [] && |block| == 128
      modifies this`input_idx, this`pending, input
      ensures Chained() && Buffered() && pending == block
    {
      hide Words, WordAt, Chain, Low, High;
      for i := 0 to 16
        invariant Chained() && pending == []
        invariant forall w :: 0 <= w < i ==> input[w] == WordAt(block, w)
      {
        BlockWord(block, i);
        input[i] := WordAt(block[8 * i..8 * i + 8], 0);
      }
      AllWords(input[..], block);
      input_idx := 128;
      pending := block;
    }

    /** `ZERO(ctx->input, 16)`. */
    method Zero()
      requires Chained() && pending == [] && input_idx == 0
      modifies input
      ensures Chained() && Buffered()
    {
      hide Words, WordAt, Chain, Low, High;
      for i := 0 to 16
        invariant Chained() && pending == [] && input_idx == 0
        invariant forall w :: 0 <= w < i ==> input[w] == 0
      {
        input[i] := 0;
      }
      EmptyWords();
      AllWords(input[..], []);
    }

    /** Whole blocks, each kept waiting until the next one or the tail arrives. */
    method WholeBlocks(message: seq<u8>, nb_blocks: nat)
      requires Chained() && Buffered() && 128 * nb_blocks <= |message|
      requires nb_blocks > 0 ==> input_idx == 128 || (input_idx == 0 && done == [])
      modifies this`hash, this`input_offset0, this`input_offset1, this`input_idx, this`done, this`blocks, this`pending, input
      ensures Chained() && Buffered() && Message() == old(Message()) + message[..128 * nb_blocks]
      ensures if nb_blocks > 0 then input_idx == 128 else input_idx == old(input_idx) && done == old(done)
    {
      hide Words, WordAt, Chain, Low, High;
      assert message[..0] == [] && Message() + [] == Message();
      for i := 0 to nb_blocks
        invariant Chained() && Buffered() && Message() == old(Message()) + message[..128 * i]
        invariant if i > 0 then input_idx == 128 else input_idx == old(input_idx) && done == old(done)
      {
        ghost var before := Message();
        if input_idx == 128 {
          Compress(false);
        }
        LoadBlock(message[128 * i..128 * i + 128]);
        assert done == before;
        Snoc(old(Message()), message, 128 * i, 128 * i + 128);
      }
    }

    /** What is left after the last whole block. */
    method Tail(message: seq<u8>)
      requires Chained() && Buffered() && 0 < |message| < 128
      requires if |message| < 8 then input_idx % 8 == 0 && (input_idx == 0 ==> done == []) else input_idx == 128 || (input_idx == 0 && done == [])
      modifies this`hash, this`input_offset0, this`input_offset1, this`input_idx, this`done, this`blocks, this`pending, input
      ensures Chained() && Buffered() && Message() == old(Message()) + message && pending != []
    {
      hide Words, WordAt, Chain, Low, High;
      if input_idx == 128 {
        Compress(false);
        input_idx := 0;
      }
      assert Message() == old(Message());
      if input_idx == 0 {
        Zero();
      }
      ghost var before := pending;
      var nb_words := |message| / 8;
      LoadWords(0, message[..8 * nb_words]);
      OrBytes(message[8 * nb_words..]);
      Absorbed(done, before, message, 8 * nb_words);
    }

    /** The bytes up to a word boundary. */
    method AlignWord(message: seq<u8>) returns (a: nat)
      requires Valid()
      modifies this`input_idx, this`pending, input
      ensures a <= |message| && Chained() && Buffered()
      ensures done == old(done) && pending == old(pending) + message[..a]
      ensures a < |message| ==> input_idx % 8 == 0
    {
      hide Words, WordAt, Chain, Low, High, ToWord;
      assert pending + message[..0] == pending;
      a := 0;
      if input_idx % 8 != 0 {
        a := ToWord(input_idx, |message|);
        OrIntoWord(message[..a]);
      }
    }

    /** Then the words up to a block boundary. */
    method AlignBlock(message: seq<u8>, a: nat) returns (b: nat)
      requires Chained() && Buffered() && a <= |message| && (a < |message| ==> input_idx % 8 == 0)
      modifies this`input_idx, this`pending, input
      ensures a <= b <= |message| && Chained() && Buffered()
      ensures done == old(done) && pending == old(pending) + message[a..b]
      ensures b < |message| ==> input_idx % 8 == 0
      ensures |message| - b >= 8 ==> input_idx == 0 || input_idx == 128
    {
      hide Words, WordAt, Chain, Low, High, ToBlock;
      assert pending + message[a..a] == pending;
      b := a;
      if input_idx % 128 != 0 {
        b := a + ToBlock(input_idx, |message| - a);
        LoadWords(input_idx / 8, message[a..b]);
      }
    }

    /** `crypto_blake2b_update`. */
    method Update(message: seq<u8>)
      requires Valid()
      modifies this`hash, this`input_offset0, this`input_offset1, this`input_idx, this`done, this`blocks, this`pending, input
      ensures Valid() && Message() == old(Message()) + message
    {
      hide Words, WordAt, Chain, Low, High;
      if |message| == 0 {
        assert Message() + message == Message();
        return;
      }
      var a := AlignWord(message);
      var b := AlignBlock(message, a);
      Snoc(old(pending), message, a, b);
      assert Message() == old(Message()) + message[..b];
      var nb_blocks := (|message| - b) / 128;
      WholeBlocks(message[b..], nb_blocks);
      var e := b + 128 * nb_blocks;
      if e < |message| {
        Tail(message[e..]);
      }
      Pieces(old(Message()), message, b, e);
    }
  
    /** `crypto_blake2b_final`: the last block, then the hash bytes, whole words first. */
    method Finish() returns (hash_bytes: seq<u8>)
      requires Valid()
      modifies this`hash, this`input_offset0, this`input_offset1, this`done, this`blocks, this`pending
      ensures hash_bytes == Digest(Final(mixing, h0, old(Message())), hash_size)
    {
      hide Words, Chain, Low, High, Digest;
      LastBlock(done, blocks, pending);
      Compress(true);
      hash_bytes := StoreHash(hash, hash_size);
    }
  }

  lemma LastBlock(done: seq<u8>, blocks: nat, pending: seq<u8>)
    requires |done| == 128 * blocks && |pending| <= 128 && (pending == [] ==> done == [])
    ensures var m := done + pending;
      BeforeLast(|m|) == |done| && m[..|done|] == done && m[|done|..] == pending
  {
    if pending != [] {
      LastMultiple(blocks, |pending|);
    }
  }

  lemma LastMultiple(blocks: nat, k: nat)
    requires 1 <= k <= 128
    ensures (128 * blocks + k - 1) / 128 * 128 == 128 * blocks
  {
  }

  /** The first bytes of a chain value, a word at a time and then byte by byte. */
  method StoreHash(h: Hash, size: nat) returns (out: seq<u8>)
    ensures out == Digest(h, size)
  {
    hide Pow256;
    var hash_size := if size < 64 then size else 64;
    var nb_words := hash_size / 8;
    out := [];
    for w := 0 to nb_words
      invariant |out| == 8 * w && forall i :: 0 <= i < |out| ==> out[i] == HashByte(h, i)
    {
      out := out + StoreWord(h, w);
    }
    for i := 8 * nb_words to hash_size
      invariant |out| == i && forall j :: 0 <= j < |out| ==> out[j] == HashByte(h, j)
    {
      out := out + [HashByte(h, i)];
    }
  }

  /** Byte i of a chain value. */
  function HashByte(h: Hash, i: nat): u8
    requires i < 64
  {
    h[i / 8] / Pow256(i % 8) % 256
  }

  /** The bytes of eight bytes of a block are those of its word. */
  lemma {:induction false} WordValue(p: seq<u8>, pos: nat, k: nat)
    requires pos + k <= |p|
    ensures Word(p, pos, k) == ByteVal(p[pos..pos + k])
    decreases k
  {
    if k > 0 {
      WordValue(p, pos + 1, k - 1);
      assert p[pos..pos + k][1..] == p[pos + 1..pos + k];
    }
  }

  /** The words are loaded lowest byte first, as section 2.4 of RFC 7693 wants them. */
  lemma BlockWords(block: seq<u8>, w: nat)
    requires |block| == 128 && w < 16
    ensures Words(block)[w] == ByteVal(block[8 * w..8 * w + 8])
  {
    WordValue(block, 8 * w, 8);
  }

  /** ... and stored lowest byte first. */
  lemma DigestWords(h: Hash, w: nat)
    requires w < 8
    ensures |Digest(h, 64)| == 64 && ByteVal(Digest(h, 64)[8 * w..8 * w + 8]) == h[w]
  {
    WordFits();
    hide Pow256;
    LowestFirst(Digest(h, 64)[8 * w..8 * w + 8], h[w]);
  }

  /** A shorter digest is a prefix of the longest. */
  lemma DigestPrefix(h: Hash, size: nat)
    requires size <= 64
    ensures |Digest(h, 64)| == 64 && Digest(h, size) == Digest(h, 64)[..size]
  {
  }

  /** `store64_le`. */
  function StoreWord(h: Hash, w: nat): (r: seq<u8>)
    requires w < 8
    ensures |r| == 8 && forall k :: 0 <= k < 8 ==> r[k] == HashByte(h, 8 * w + k)
  {
    seq<u8>(8, k requires 0 <= k < 8 => HashByte(h, 8 * w + k))
  }

  /** Any way of splitting a message into updates gives the digest of the whole. */
  method DigestOfChunks(mixing: Mixing, start: Hash, hash_size: nat, key: seq<u8>, chunks: seq<seq<u8>>) returns (digest: seq<u8>)
    requires |key| <= 64
    ensures digest == Digest(Final(mixing, start, KeyBlock(key) + Join(chunks)), hash_size)
  {
    hide Digest, Final;
    var ctx := new Context(mixing, start, hash_size, key);
    assert chunks[..0] == [] && KeyBlock(key) + [] == KeyBlock(key);
    for i := 0 to |chunks|
      invariant fresh(ctx) && fresh(ctx.input) && ctx.Valid()
      invariant ctx.mixing == mixing && ctx.h0 == start && ctx.hash_size == hash_size
      invariant ctx.Message() == KeyBlock(key) + Join(chunks[..i])
    {
      ctx.Update(chunks[i]);
      assert chunks[..i + 1][..i] == chunks[..i];
    }
    assert chunks[..|chunks|] == chunks;
    digest := ctx.Finish();
  }

  /** A key, padded with zeros to a block. */
  function KeyBlock(key: seq<u8>): (r: seq<u8>)
    requires |key| <= 64
    ensures key == [] ==> r == []
    ensures key != [] ==> |r| == 128 && r[..|key|] == key && forall i :: |key| <= i < 128 ==> r[i] == 0
  {
    if key == [] then [] else key + seq(128 - |key|, _ => 0)
  }

  /** How many of n bytes go into a started word. */
  function ToWord(idx: nat, n: nat): (a: nat)
    requires idx % 8 != 0
    ensures a <= n && idx % 8 + a <= 8 && (a < n ==> (idx + a) % 8 == 0)
  {
    if Gap(idx, 8) < n then Gap(idx, 8) else n
  }

  /** How many of n bytes go as whole words into a started block. */
  function ToBlock(idx: nat, n: nat): (k: nat)
    requires 0 < idx < 128 && (n > 0 ==> idx % 8 == 0)
    ensures k <= n && k % 8 == 0 && idx + k <= 128 && (n - k >= 8 ==> idx + k == 128)
    ensures k > 0 ==> 8 * (idx / 8) == idx
  {
    GapBelow(idx, 128);
    WholeWords(idx, n, Gap(idx, 128))
  }

  function WholeWords(idx: nat, n: nat, gap: nat): (k: nat)
    requires 0 < idx < 128 && (n > 0 ==> idx % 8 == 0) && gap == 128 - idx
    ensures k <= n && k % 8 == 0 && idx + k <= 128 && (n - k >= 8 ==> idx + k == 128)
    ensures k > 0 ==> 8 * (idx / 8) == idx
  {
    var room := if gap < n then gap else n;
    room / 8 * 8
  }

  lemma BlockWord(block: seq<u8>, w: nat)
    requires |block| == 128 && w < 16
    ensures WordAt(block[8 * w..8 * w + 8], 0) == WordAt(block, w)
  {
    hide Word;
    WordLocal(block[8 * w..8 * w + 8], block, 0, 8 * w, 8);
  }

  lemma AllWords(input: seq<u64>, block: seq<u8>)
    requires |input| == 16 && forall w :: 0 <= w < 16 ==> input[w] == WordAt(block, w)
    ensures input == Words(block)
  {
  }

  lemma EmptyWords()
    ensures forall w :: 0 <= w < 16 ==> WordAt([], w) == 0
  {
    forall w | 0 <= w < 16
      ensures WordAt([], w) == 0
    {
      WordPastEnd([], 8 * w, 8);
    }
  }

  lemma Snoc(before: seq<u8>, m: seq<u8>, i: nat, j: nat)
    requires i <= j <= |m|
    ensures (before + m[..i]) + m[i..j] == before + m[..j]
  {
  }

  lemma Absorbed(done: seq<u8>, pending: seq<u8>, m: seq<u8>, i: nat)
    requires i <= |m|
    ensures done + (pending + m[..i] + m[i..]) == (done + pending) + m
  {
  }
}
