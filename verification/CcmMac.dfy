/**
  The streaming CBC-MAC of crypto-ccm.c: compute_mac and get_data_to_compute.

  `odata` is the running cipher block and the first `ilen` bytes of `idata` are input that
  does not fill a block yet.  A scatterlist is a sequence of segments.
 */
module CcmMac {
  import opened CcmBytes

  // ----- One-shot CBC-MAC -----

  function Cbc(E: Cipher, o: Block, data: Bytes): Block
    requires |data| % 16 == 0
    decreases |data|
  {
    if data == [] then o else Cbc(E, E(Xor(o, data[..16])), data[16..])
  }

  lemma {:induction false} CbcConcat(E: Cipher, o: Block, a: Bytes, b: Bytes)
    requires |a| % 16 == 0 && |b| % 16 == 0
    ensures Cbc(E, o, a + b) == Cbc(E, Cbc(E, o, a), b)
    decreases |a|
  {
    if a == [] {
      assert a + b == b;
    } else {
      assert (a + b)[..16] == a[..16] && (a + b)[16..] == a[16..] + b;
      CbcConcat(E, E(Xor(o, a[..16])), a[16..], b);
    }
  }

  lemma CbcBlock(E: Cipher, o: Block, block: Block)
    ensures Cbc(E, o, block) == E(Xor(o, block))
  {
    assert block[..16] == block && block[16..] == [];
  }

  function Flatten(segments: seq<Bytes>): Bytes {
    if segments == [] then [] else segments[0] + Flatten(segments[1..])
  }

  // scatterwalk_clamp
  function Clamp(available: nat, wanted: nat): nat {
    if available < wanted then available else wanted
  }

  // The next `left` bytes: from byte `off` of the current segment, then from later ones.
  function Ahead(segment: Bytes, off: nat, later: Bytes, left: nat): Bytes
    requires off <= |segment| && left <= |segment| - off + |later|
  {
    (segment[off..] + later)[..left]
  }

  lemma AheadTakes(segment: Bytes, off: nat, later: Bytes, left: nat, n: nat)
    requires off + n <= |segment| && n <= left <= |segment| - off + |later|
    ensures Ahead(segment, off, later, left) == segment[off..off + n] + Ahead(segment, off + n, later, left - n)
  {
    assert segment[off..] == segment[off..off + n] + segment[off + n..];
  }

  lemma AheadNext(segment: Bytes, next: Bytes, later: Bytes, left: nat)
    requires left <= |next + later|
    ensures Ahead(segment, |segment|, next + later, left) == Ahead(next, 0, later, left)
  {
    assert segment[|segment|..] + (next + later) == next[0..] + later;
  }

  // ----- The streaming state -----

  class MacState {
    const E: Cipher
    const odata: array<bv8>
    const idata: array<bv8>
    var ilen: nat
    ghost var start: Block      // odata when the current input began
    ghost var chained: Bytes    // the whole blocks of input since then

    ghost predicate Valid()
      reads this, odata, idata
    {
      && odata.Length == 16 && idata.Length == 16 && odata != idata
      && ilen < 16 && |chained| % 16 == 0
      && odata[..] == Cbc(E, start, chained)
    }

    // The input since `start`.
    ghost function Fed(): Bytes
      requires ilen <= idata.Length
      reads this, idata
    {
      chained + idata[..ilen]
    }

    constructor (E: Cipher)
      ensures Valid() && fresh(odata) && fresh(idata) && this.E == E
    {
      this.E := E;
      odata := new bv8[16](i => 0);
      idata := new bv8[16](i => 0);
      ilen, start, chained := 0, Zeros(16), [];
      new;
      assert odata[..] == Zeros(16);
    }

    // crypto_xor and crypto_cipher_encrypt_one on odata
    method XorEncrypt(block: Block)
      requires Valid()
      modifies this`chained, odata
      ensures Valid() && chained == old(chained) + block
      ensures ilen == 0 ==> Fed() == chained
    {
      var next := E(Xor(odata[..], block));
      forall k | 0 <= k < 16 {
        odata[k] := next[k];
      }
      assert odata[..] == next;
      CbcConcat(E, start, chained, block);
      CbcBlock(E, Cbc(E, start, chained), block);
      SumOfBlocks(|chained|, 16);
      chained := chained + block;
    }

    // memcpy into idata
    method Fill(at: nat, src: Bytes)
      requires at + |src| <= idata.Length
      modifies idata
      ensures idata[..at + |src|] == old(idata[..at]) + src
    {
      forall k | 0 <= k < |src| {
        idata[at + k] := src[k];
      }
    }

    // the first block, encrypted, starts a new chain
    method Begin(b0: Block)
      requires Valid()
      modifies this, odata
      ensures Valid() && ilen == 0 && chained == [] && start == odata[..] == E(b0)
    {
      var next := E(b0);
      forall k | 0 <= k < 16 {
        odata[k] := next[k];
      }
      assert odata[..] == next;
      start, chained, ilen := next, [], 0;
    }

    // counter mode overwrites odata with the encrypted tag
    method Store(block: Block)
      requires Valid()
      modifies this`start, this`chained, odata
      ensures Valid() && odata[..] == block
    {
      forall k | 0 <= k < 16 {
        odata[k] := block[k];
      }
      assert odata[..] == block;
      start, chained := block, [];
    }

    // compute_mac
    method ComputeMac(data: Bytes)
      requires Valid()
      modifies this`ilen, this`chained, odata, idata
      ensures Valid() && Fed() == old(Fed()) + data
    {
      var rest := data;
      var getlen := 16 - ilen;
      if |rest| >= getlen {
        CompleteBlock(rest[..getlen]);
        MoveOver(old(Fed()), rest, getlen);
        rest := rest[getlen..];
      }
      while |rest| >= 16
        invariant Valid() && Fed() + rest == old(Fed()) + data
        invariant ilen + |rest| < 16 || ilen == 0
        decreases |rest|
      {
        MoveOver(chained, rest, 16);
        XorEncrypt(rest[..16]);
        rest := rest[16..];
      }
      if |rest| > 0 {
        KeepRest(rest);
      }
    }

    method KeepRest(data: Bytes)
      requires Valid() && ilen + |data| < 16
      modifies this`ilen, idata
      ensures Valid() && Fed() == old(Fed()) + data
    {
      Fill(ilen, data);
      ilen := ilen + |data|;
    }

    method CompleteBlock(data: Bytes)
      requires Valid() && |data| == 16 - ilen
      modifies this`ilen, this`chained, odata, idata
      ensures Valid() && ilen == 0 && Fed() == chained == old(Fed()) + data
    {
      Fill(ilen, data);
      assert idata[..] == old(idata[..ilen]) + data;
      XorEncrypt(idata[..]);
      ilen := 0;
    }

    // get_data_to_compute: walk `len` bytes of the segments, then pad
    method GetDataToCompute(segments: seq<Bytes>, len: nat)
      requires Valid() && len <= |Flatten(segments)|
      modifies this, odata, idata
      ensures Valid() && ilen == 0 && chained == [] && start == odata[..]
      ensures odata[..] == Cbc(E, old(start), Pad(old(Fed()) + Flatten(segments)[..len]))
      ensures var fed := old(Fed()) + Flatten(segments)[..len];
        var zeros := Zeros(RoundUp(|fed|) - |fed|);
        |fed + zeros| % 16 == 0 && odata[..] == Cbc(E, old(start), fed + zeros)
    {
      ghost var fed := Fed() + Flatten(segments)[..len];
      WalkSegments(segments, len);
      FinishBlock();
      PadIsZeros(fed);
    }

    method WalkSegments(segments: seq<Bytes>, len: nat)
      requires Valid() && len <= |Flatten(segments)|
      modifies this`ilen, this`chained, odata, idata
      ensures Valid() && Fed() == old(Fed()) + Flatten(segments)[..len]
    {
      ghost var total := Fed() + Flatten(segments)[..len];
      var i: nat, off: nat, left: nat := 0, 0, len;
      ghost var later: Bytes := [];
      if left > 0 {
        later := Flatten(segments[1..]);
        assert segments[0][0..] == segments[0];
      }
      while left > 0
        invariant Valid()
        invariant left == 0 ==> Fed() == total
        invariant left > 0 ==>
          && i < |segments| && off <= |segments[i]| && later == Flatten(segments[i + 1..])
          && left <= |segments[i]| - off + |later|
          && Fed() + Ahead(segments[i], off, later, left) == total
        decreases left, |segments| - i
      {
        var n := Clamp(|segments[i]| - off, left);
        if n == 0 {
          assert segments[i + 1..][1..] == segments[i + 2..];
          later := Flatten(segments[i + 2..]);
          AheadNext(segments[i], segments[i + 1], later, left);
          i, off := i + 1, 0;
          n := Clamp(|segments[i]|, left);
        }
        AheadTakes(segments[i], off, later, left, n);
        FeedChunk(segments[i][off..off + n], Ahead(segments[i], off + n, later, left - n));
        left, off := left - n, off + n;
      }
    }

    method FeedChunk(chunk: Bytes, ghost ahead: Bytes)
      requires Valid()
      modifies this`ilen, this`chained, odata, idata
      ensures Valid() && Fed() + ahead == old(Fed()) + (chunk + ahead)
    {
      ComputeMac(chunk);
    }

    // any leftover is padded and encrypted
    method FinishBlock()
      requires Valid()
      modifies this, odata, idata
      ensures Valid() && ilen == 0 && chained == [] && start == odata[..]
      ensures odata[..] == Cbc(E, old(start), Pad(old(Fed())))
    {
      PadAppend(chained, idata[..ilen]);
      if ilen > 0 {
        Fill(ilen, Zeros(16 - ilen));
        assert idata[..] == old(Pad(idata[..ilen]));
        XorEncrypt(idata[..]);
        ilen := 0;
      } else {
        assert Pad(Fed()) == chained;
      }
      start, chained := odata[..], [];
    }
  }

  lemma MoveOver(fed: Bytes, rest: Bytes, n: nat)
    requires n <= |rest|
    ensures fed + rest[..n] + rest[n..] == fed + rest
  {
  }

  lemma PadAppend(a: Bytes, b: Bytes)
    requires |a| % 16 == 0
    ensures Pad(a + b) == a + Pad(b)
  {
    assert RoundUp(|a| + |b|) == |a| + RoundUp(|b|);
    assert Zeros(RoundUp(|a + b|) - |a + b|) == Zeros(RoundUp(|b|) - |b|);
  }
}
