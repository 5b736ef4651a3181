/**
 Prefix decryption of a download.  The keystream is an unspecified function of the basename and the absolute
 position (counter mode, section 6.5 of NIST SP 800-38A); only the first 16384 bytes of a file are ciphered.
 */
module Cipher {
  import opened Bytes

  const PREFIX := 16384
  type Keystream = (bytes, nat) -> byte

  datatype Outcome = Done(data: bytes) | Failed

  /** A basename is non-empty and holds neither separator. */
  predicate GoodName(name: bytes)
  {
    name != [] && 0x2F !in name && 0x5C !in name
  }

  /** The bytes of a chunk that starts at `offset`, decrypted. */
  function Decrypted(ks: Keystream, name: bytes, data: bytes, offset: nat): (r: bytes)
    ensures |r| == |data|
    ensures forall i :: 0 <= i < |data| ==>
      r[i] == if offset + i < PREFIX then Xor(data[i], ks(name, offset + i)) else data[i]
  {
    seq(|data|, i requires 0 <= i < |data| =>
      if offset + i < PREFIX then Xor(data[i], ks(name, offset + i)) else data[i])
  }

  /** In-place decryption of one chunk; a bad basename is refused before anything is written. */
  method Decrypt(ks: Keystream, data: array<byte>, name: bytes, offset: u64) returns (ok: bool)
    modifies data
    ensures ok <==> GoodName(name)
    ensures data[..] == if ok then Decrypted(ks, name, old(data[..]), offset) else old(data[..])
  {
    if name == [] || 0x2F in name || 0x5C in name {
      return false;
    }
    var left := if offset < PREFIX then PREFIX - offset else 0;
    var n := if data.Length < left then data.Length else left;
    if n == 0 {
      return true;
    }
    for i := 0 to n
      invariant forall k :: 0 <= k < data.Length ==>
        data[k] == if k < i then Xor(old(data[k]), ks(name, offset + k)) else old(data[k])
    {
      data[i] := Xor(data[i], ks(name, offset + i));
    }
    return true;
  }

  function Concat(chunks: seq<bytes>): bytes
  {
    if chunks == [] then [] else Concat(chunks[..|chunks| - 1]) + chunks[|chunks| - 1]
  }

  /** What a download of `size` bytes stores, however the transport cuts it; `limit` is the input budget. */
  function Downloaded(ks: Keystream, name: bytes, size: nat, limit: nat, ciphered: bool, data: bytes): Outcome
  {
    if size == 0 || size > limit || name == [] || |data| != size || (ciphered && !GoodName(name)) then Failed
    else Done(if ciphered then Decrypted(ks, name, data, 0) else data)
  }

  lemma DecryptedSplit(ks: Keystream, name: bytes, a: bytes, b: bytes)
    ensures Decrypted(ks, name, a + b, 0) == Decrypted(ks, name, a, 0) + Decrypted(ks, name, b, |a|)
  {
    hide Xor;
  }

  lemma {:induction false} ConcatPrefix(chunks: seq<bytes>, n: nat)
    requires n <= |chunks|
    ensures |Concat(chunks[..n])| <= |Concat(chunks)|
    decreases |chunks|
  {
    if n < |chunks| {
      ConcatPrefix(chunks[..|chunks| - 1], n);
      assert chunks[..|chunks| - 1][..n] == chunks[..n];
    } else {
      assert chunks[..n] == chunks;
    }
  }

  lemma ConcatNext(chunks: seq<bytes>, n: nat)
    requires n < |chunks|
    ensures Concat(chunks[..n + 1]) == Concat(chunks[..n]) + chunks[n]
  {
    assert chunks[..n + 1][..n] == chunks[..n];
  }

  /**
   The receive loop: refuse an excess chunk, decrypt each chunk at its running offset, require the exact size.
   The result depends on the bytes received and not on where the transport cut them.
   */
  method Download(ks: Keystream, name: bytes, size: u64, limit: u64, ciphered: bool, chunks: seq<bytes>)
    returns (r: Outcome)
    ensures r == Downloaded(ks, name, size, limit, ciphered, Concat(chunks))
  {
    hide Decrypted;
    if size == 0 || size > limit {
      return Failed;
    }
    if name == [] {
      return Failed;
    }
    var file: bytes := [];
    var received := 0;
    assert Concat(chunks[..0]) == [];
    for i := 0 to |chunks|
      invariant received == |Concat(chunks[..i])| <= size
      invariant i > 0 && ciphered ==> GoodName(name)
      invariant file == if ciphered then Decrypted(ks, name, Concat(chunks[..i]), 0) else Concat(chunks[..i])
    {
      var chunk := chunks[i];
      ConcatNext(chunks, i);
      if received + |chunk| > size {
        ConcatPrefix(chunks, i + 1);
        return Failed;
      }
      var data := chunk;
      if ciphered {
        var buffer := new byte[|chunk|](k requires 0 <= k < |chunk| => chunk[k]);
        assert buffer[..] == chunk;
        var ok := Decrypt(ks, buffer, name, received);
        if !ok {
          return Failed;
        }
        data := buffer[..];
        DecryptedSplit(ks, name, Concat(chunks[..i]), chunk);
      }
      file := file + data;
      received := received + |chunk|;
    }
    assert chunks[..|chunks|] == chunks;
    if received != size {
      return Failed;
    }
    return Done(file);
  }

  /** Each chunk decrypted on its own, at the offset where it starts. */
  function Chunkwise(ks: Keystream, name: bytes, chunks: seq<bytes>): bytes
  {
    if chunks == [] then [] else
    var before := chunks[..|chunks| - 1];
    Chunkwise(ks, name, before) + Decrypted(ks, name, chunks[|chunks| - 1], |Concat(before)|)
  }

  /** Whatever the split, decrypting chunk by chunk at running offsets is one decryption of the whole. */
  lemma {:induction false} ChunkwiseIsWhole(ks: Keystream, name: bytes, chunks: seq<bytes>)
    ensures Chunkwise(ks, name, chunks) == Decrypted(ks, name, Concat(chunks), 0)
  {
    hide Xor;
    if chunks != [] {
      var before := chunks[..|chunks| - 1];
      ChunkwiseIsWhole(ks, name, before);
      DecryptedSplit(ks, name, Concat(before), chunks[|chunks| - 1]);
    }
  }

  /**
   A download is stored exactly when its size is not zero, within the limit and the number of bytes received, and its
   name is not empty and, if the file is ciphered, holds neither separator.  Only the first 16384 bytes of a ciphered
   file differ from what was received.
   */
  lemma StoredDownload(ks: Keystream, name: bytes, size: nat, limit: nat, ciphered: bool, data: bytes)
    ensures Downloaded(ks, name, size, limit, ciphered, data).Done? <==>
      && 0 < size <= limit && |data| == size && name != []
      && (ciphered ==> forall i :: 0 <= i < |name| ==> name[i] as char != '/' && name[i] as char != '\\')
    ensures var r := Downloaded(ks, name, size, limit, ciphered, data); r.Done? ==>
      && |r.data| == size
      && forall i :: 0 <= i < size ==>
        r.data[i] == if ciphered && i < 16 * 1024 then Xor(data[i], ks(name, i)) else data[i]
  {
    hide Xor;
    forall i | 0 <= i < |name|
      ensures (name[i] == 0x2F <==> name[i] as char == '/') && (name[i] == 0x5C <==> name[i] as char == '\\')
    {
    }
  }

  /** Decrypting twice is the identity, and nothing past the prefix ever changes. */
  lemma DecryptTwice(ks: Keystream, name: bytes, data: bytes, offset: nat)
    ensures Decrypted(ks, name, Decrypted(ks, name, data, offset), offset) == data
    ensures forall i :: 0 <= i < |data| && PREFIX <= offset + i ==> Decrypted(ks, name, data, offset)[i] == data[i]
  {
    hide Xor;
    forall i | 0 <= i < |data| ensures Xor(Xor(data[i], ks(name, offset + i)), ks(name, offset + i)) == data[i] {
      XorCancel(data[i], ks(name, offset + i));
    }
  }
}
