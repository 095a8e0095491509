/** HMACEngine: a message authentication code over any digest engine. */
module Hmac {

  type Bytes = seq<bv8>

  /** Any DigestEngine: what it holds is the data since the last reset. Nothing is relied on about
      its state after construction or after digest(). */
  class Engine {
    const blockSize: nat
    const digestSize: nat
    const hash: Bytes -> Bytes
    var data: Bytes

    ghost predicate Valid() {
      && digestSize <= blockSize
      && forall m :: |hash(m)| == digestSize
    }

    constructor (blockSize: nat, digestSize: nat, hash: Bytes -> Bytes)
      ensures this.blockSize == blockSize && this.digestSize == digestSize && this.hash == hash
    {
      this.blockSize, this.digestSize, this.hash := blockSize, digestSize, hash;
    }

    method Reset()
      modifies this
      ensures data == []
    {
      data := [];
    }

    method Update(chunk: Bytes)
      modifies this
      ensures data == old(data) + chunk
    {
      data := data + chunk;
    }

    method Digest() returns (d: Bytes)
      modifies this
      ensures d == hash(old(data))
    {
      d := hash(data);
      data := *;
    }
  }

  // ---- Section 2 of RFC 2104 ----

  function Zeros(n: nat): (z: Bytes)
    ensures |z| == n && forall i | 0 <= i < n :: z[i] == 0
  {
    seq(n, _ => 0)
  }

  function Xor(block: Bytes, b: bv8): (r: Bytes)
    ensures |r| == |block| && forall i | 0 <= i < |r| :: r[i] == block[i] ^ b
  {
    seq(|block|, i requires 0 <= i < |block| => block[i] ^ b)
  }

  lemma XorOneMore(block: Bytes, i: nat, b: bv8)
    requires i < |block|
    ensures (Xor(block[..i], b) + block[i..])[i := block[i] ^ b] == Xor(block[..i + 1], b) + block[i + 1..]
  {
    assert Xor(block[..i + 1], b) == Xor(block[..i], b) + [block[i] ^ b];
  }

  /** K: a key longer than the block is replaced by its hash; then zeros are appended. */
  function KeyBlock(hash: Bytes -> Bytes, blockSize: nat, key: Bytes): Bytes {
    var k := if |key| > blockSize then hash(key) else key;
    if |k| <= blockSize then k + Zeros(blockSize - |k|) else k
  }

  /** H(K XOR opad, H(K XOR ipad, text)) */
  function Rfc2104(hash: Bytes -> Bytes, blockSize: nat, key: Bytes, text: Bytes): Bytes {
    var k := KeyBlock(hash, blockSize, key);
    hash(Xor(k, 0x5c) + hash(Xor(k, 0x36) + text))
  }

  /** The key of the standard: as long as the block, the key or the hash of one that is too long, and zeros behind it. */
  ghost predicate IsKey(hash: Bytes -> Bytes, blockSize: nat, key: Bytes, k: Bytes) {
    var front := if |key| <= blockSize then key else hash(key);
    |k| == blockSize && front <= k && forall i | |front| <= i < blockSize :: k[i] == 0
  }

  /** The code in the words of the standard: 0x36 and 0x5c are laid over every byte of that key. */
  lemma FormulaOfTheStandard(hash: Bytes -> Bytes, blockSize: nat, key: Bytes, text: Bytes, k: Bytes, inner: Bytes,
                             outer: Bytes)
    requires IsKey(hash, blockSize, key, k)
    requires |inner| == |outer| == blockSize
    requires forall i | 0 <= i < blockSize :: inner[i] == k[i] ^ 0x36 && outer[i] == k[i] ^ 0x5c
    ensures Rfc2104(hash, blockSize, key, text) == hash(outer + hash(inner + text))
  {
    assert KeyBlock(hash, blockSize, key) == k;
    assert Xor(k, 0x36) == inner && Xor(k, 0x5c) == outer;
  }

  /** Zeros at the end of a key make no difference as long as it fits the block. */
  lemma TrailingZerosAreIgnored(hash: Bytes -> Bytes, blockSize: nat, key: Bytes, n: nat, text: Bytes)
    requires |key| + n <= blockSize
    ensures Rfc2104(hash, blockSize, key + Zeros(n), text) == Rfc2104(hash, blockSize, key, text)
  {
    assert KeyBlock(hash, blockSize, key + Zeros(n)) == KeyBlock(hash, blockSize, key);
  }

  function Concat(chunks: seq<Bytes>): Bytes {
    if chunks == [] then [] else Concat(chunks[..|chunks| - 1]) + chunks[|chunks| - 1]
  }

  // ---- The engine ----

  class HmacEngine {
    const engine: Engine
    const ipad: array<bv8>
    const opad: array<bv8>
    ghost const key: Bytes
    /** What was given to update since the last digest or reset. */
    ghost var message: Bytes

    ghost predicate Padded()
      reads ipad, opad
    {
      && engine.Valid() && ipad != opad
      && ipad[..] == Xor(KeyBlock(engine.hash, engine.blockSize, key), 0x36)
      && opad[..] == Xor(KeyBlock(engine.hash, engine.blockSize, key), 0x5c)
    }

    ghost predicate Valid()
      reads this, ipad, opad, engine
    {
      Padded() && engine.data == ipad[..] + message
    }

    /** init */
    constructor (blockSize: nat, digestSize: nat, hash: Bytes -> Bytes, passphrase: Bytes)
      requires digestSize <= blockSize && forall m :: |hash(m)| == digestSize
      ensures Valid() && message == [] && key == passphrase
      ensures engine.hash == hash && engine.blockSize == blockSize
      ensures fresh(engine) && fresh(ipad) && fresh(opad)
    {
      engine := new Engine(blockSize, digestSize, hash);
      ipad := new bv8[blockSize];
      opad := new bv8[blockSize];
      key := passphrase;
      new;
      SetKey(passphrase);
      XorPads();
      Reset();
    }

    /** The first part of init: both pads hold the key block. */
    method SetKey(passphrase: Bytes)
      requires engine.Valid() && ipad.Length == opad.Length == engine.blockSize && ipad != opad
      modifies engine, ipad, opad
      ensures ipad[..] == opad[..] == KeyBlock(engine.hash, engine.blockSize, passphrase)
    {
      forall i | 0 <= i < ipad.Length { ipad[i] := 0; }
      forall i | 0 <= i < opad.Length { opad[i] := 0; }
      if |passphrase| > engine.blockSize {
        engine.Reset();
        engine.Update(passphrase);
        assert engine.data == passphrase;
        var d := engine.Digest();
        var n := engine.blockSize;
        var i := 0;
        while i < |d| && n > 0
          invariant 0 <= i <= |d| && n == engine.blockSize - i
          invariant ipad[..] == opad[..] == d[..i] + Zeros(n)
        {
          ipad[i] := d[i];
          opad[i] := d[i];
          i, n := i + 1, n - 1;
        }
        assert d[..i] == d;
      } else {
        forall i | 0 <= i < |passphrase| { ipad[i] := passphrase[i]; }
        forall i | 0 <= i < |passphrase| { opad[i] := passphrase[i]; }
      }
    }

    method XorPads()
      requires ipad.Length == opad.Length == engine.blockSize && ipad != opad
      modifies ipad, opad
      ensures ipad[..] == Xor(old(ipad[..]), 0x36)
      ensures opad[..] == Xor(old(opad[..]), 0x5c)
    {
      ghost var inner, outer := ipad[..], opad[..];
      for i := 0 to engine.blockSize
        invariant ipad[..] == Xor(inner[..i], 0x36) + inner[i..]
        invariant opad[..] == Xor(outer[..i], 0x5c) + outer[i..]
      {
        XorOneMore(inner, i, 0x36);
        XorOneMore(outer, i, 0x5c);
        ipad[i] := ipad[i] ^ 0x36;
        opad[i] := opad[i] ^ 0x5c;
      }
    }

    method Reset()
      requires Padded()
      modifies this, engine
      ensures Valid() && message == []
    {
      engine.Reset();
      engine.Update(ipad[..]);
      message := [];
    }

    method Update(chunk: Bytes)
      requires Valid()
      modifies this, engine
      ensures Valid() && message == old(message) + chunk
    {
      engine.Update(chunk);
      assert ipad[..] + message + chunk == ipad[..] + (message + chunk);
      message := message + chunk;
    }

    /** The code of everything since the start, and a fresh start with the same key. */
    method Digest() returns (result: Bytes)
      requires Valid()
      modifies this, engine
      ensures result == Rfc2104(engine.hash, engine.blockSize, key, old(message))
      ensures Valid() && message == []
    {
      var d := engine.Digest();
      engine.Reset();
      engine.Update(opad[..]);
      engine.Update(d);
      assert engine.data == opad[..] + d;
      result := engine.Digest();
      Reset();
    }

    /** However the text is cut into chunks, and whatever came before, the code is that of the text. */
    method Authenticate(chunks: seq<Bytes>) returns (result: Bytes)
      requires Valid() && message == []
      modifies this, engine
      ensures result == Rfc2104(engine.hash, engine.blockSize, key, Concat(chunks))
      ensures Valid() && message == []
    {
      for i := 0 to |chunks|
        invariant Valid() && message == Concat(chunks[..i])
      {
        Update(chunks[i]);
        assert chunks[..i + 1][..i] == chunks[..i];
      }
      assert chunks[..|chunks|] == chunks;
      result := Digest();
    }
  }
}
