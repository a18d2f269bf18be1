/**
  The request context of crypto-ccm.c, whose buffers and IV the operations update in place.
 */
module CcmRequest {
  import opened CcmBytes
  import opened CcmMac
  import opened CcmFormat
  import opened CcmAead

  // crypto_memneq, byte by byte
  method Memneq(a: Bytes, b: Bytes) returns (r: int)
    requires |a| == |b|
    ensures r == if a != b then 1 else 0
  {
    var neq: bv8 := 0;
    for i := 0 to |a|
      invariant neq == 0 <==> a[..i] == b[..i]
    {
      OrIsZero(neq, a[i], b[i]);
      assert a[..i + 1] == a[..i] + [a[i]] && b[..i + 1] == b[..i] + [b[i]];
      neq := neq | (a[i] ^ b[i]);
    }
    assert a[..|a|] == a && b[..|b|] == b;
    r := if neq != 0 then 1 else 0;
  }

  lemma OrIsZero(neq: bv8, x: bv8, y: bv8)
    ensures neq | (x ^ y) == 0 <==> neq == 0 && x == y
  {
  }

  // The MAC over the formatted blocks, piece by piece.
  lemma MacChain(E: Cipher, b0: Block, adata: Bytes, msg: Bytes)
    ensures Mac(E, b0, adata, msg) == Cbc(E, Cbc(E, E(b0), AdataBlocks(adata)), Pad(msg))
  {
    MacPieces(E, b0, AdataBlocks(adata), Pad(msg));
  }

  lemma MacPieces(E: Cipher, b0: Block, a: Bytes, p: Bytes)
    requires |a| % 16 == 0 && |p| % 16 == 0
    ensures |b0 + a + p| % 16 == 0 && Cbc(E, Zeros(16), b0 + a + p) == Cbc(E, Cbc(E, E(b0), a), p)
  {
    SumOfBlocks(16, |a|);
    SumOfBlocks(16 + |a|, |p|);
    CbcConcat(E, Zeros(16), b0 + a, p);
    CbcConcat(E, Zeros(16), b0, a);
    CbcBlock(E, Zeros(16), b0);
    XorZero(b0);
  }

  class Request {
    const mac: MacState
    const iv: array<bv8>
    const authTag: array<bv8>
    const m: nat

    ghost predicate Valid()
      reads this, mac, mac.odata, mac.idata
    {
      && mac.Valid() && iv.Length == 16 && authTag.Length == 16 && AuthSize(m)
      && mac.odata != iv && mac.odata != authTag && mac.idata != iv && mac.idata != authTag && iv != authTag
    }

    constructor (E: Cipher, iv0: Block, m: nat)
      requires AuthSize(m)
      ensures Valid() && this.m == m && mac.E == E && iv[..] == iv0
    {
      mac := new MacState(E);
      iv := new bv8[16](i requires 0 <= i < 16 => iv0[i]);
      authTag := new bv8[16](i => 0);
      this.m := m;
      new;
      assert iv[..] == iv0;
    }

    // crypto_ccm_auth
    method Auth(assoc: seq<Bytes>, assoclen: nat, plain: seq<Bytes>, cryptlen: nat) returns (r: Result<()>)
      requires Valid() && Formattable(iv[..])
      requires assoclen <= |Flatten(assoc)| && cryptlen <= |Flatten(plain)|
      modifies mac, mac.odata, mac.idata
      ensures Valid()
      ensures var b0 := FormatInput(iv[..], m, assoclen != 0, cryptlen);
        && (b0.Err? ==> r == Err(b0.error))
        && (b0.Ok? ==> r == Ok(()))
        && (b0.Ok? ==>
          mac.odata[..] == Mac(mac.E, b0.value, Flatten(assoc)[..assoclen], Flatten(plain)[..cryptlen]))
    {
      match FormatInput(iv[..], m, assoclen != 0, cryptlen)
      case Err(e) => return Err(e);
      case Ok(b0) =>
        ghost var adata, msg := Flatten(assoc)[..assoclen], Flatten(plain)[..cryptlen];
        MacChain(mac.E, b0, adata, msg);
        mac.Begin(b0);
        AddAssoc(assoc, assoclen);
        AddPlain(plain, cryptlen);
        return Ok(());
    }

    method AddAssoc(assoc: seq<Bytes>, assoclen: nat)
      requires Valid() && mac.ilen == 0 && mac.chained == [] && mac.start == mac.odata[..]
      requires assoclen <= |Flatten(assoc)|
      modifies mac, mac.odata, mac.idata
      ensures Valid() && mac.ilen == 0 && mac.chained == [] && mac.start == mac.odata[..]
      ensures mac.odata[..] == Cbc(mac.E, old(mac.odata[..]), AdataBlocks(Flatten(assoc)[..assoclen]))
    {
      if assoclen > 0 {
        var prefix := AdataPrefix(assoclen);
        mac.KeepRest(prefix);
        assert mac.Fed() == prefix;
        mac.GetDataToCompute(assoc, assoclen);
      }
    }

    method AddPlain(plain: seq<Bytes>, cryptlen: nat)
      requires Valid() && mac.ilen == 0 && mac.chained == [] && mac.start == mac.odata[..]
      requires cryptlen <= |Flatten(plain)|
      modifies mac, mac.odata, mac.idata
      ensures Valid()
      ensures mac.odata[..] == Cbc(mac.E, old(mac.odata[..]), Pad(Flatten(plain)[..cryptlen]))
    {
      if cryptlen > 0 {
        assert mac.Fed() == [];
        mac.GetDataToCompute(plain, cryptlen);
        assert [] + Flatten(plain)[..cryptlen] == Flatten(plain)[..cryptlen];
      }
    }

    // clear the counter bytes of the IV
    method ClearCounter()
      requires Valid() && CheckIv(iv[..])
      modifies iv
      ensures iv[..] == CounterBlock(old(iv[..]))
    {
      var l := LengthWidth(iv[..]);
      forall k | 16 - l <= k < 16 {
        iv[k] := 0;
      }
    }

    // the counter mode service: it advances the IV by the number of blocks
    method CtrCrypt(data: Bytes) returns (out: Bytes)
      requires iv.Length == 16
      modifies iv
      ensures out == Ctr(mac.E, old(iv[..]), data)
      ensures iv[..] == CounterAdd(old(iv[..]), BlockCount(|data|))
    {
      out := Ctr(mac.E, iv[..], data);
      var next := CounterAdd(iv[..], BlockCount(|data|));
      forall k | 0 <= k < 16 {
        iv[k] := next[k];
      }
    }

    // crypto_ccm_encrypt
    method Encrypt(assoc: seq<Bytes>, assoclen: nat, src: seq<Bytes>, cryptlen: nat) returns (r: Result<Bytes>)
      requires Valid()
      requires assoclen <= |Flatten(assoc)| && cryptlen <= |Flatten(src)|
      modifies mac, mac.odata, mac.idata, iv
      ensures Valid()
      ensures r == Encrypted(mac.E, old(iv[..]), m, Flatten(assoc)[..assoclen], Flatten(src)[..cryptlen])
      ensures r.Ok? ==> CheckIv(old(iv[..])) && iv[..] == AdvancedIv(old(iv[..]), cryptlen)
    {
      if !CheckIv(iv[..]) {
        return Err(EINVAL);
      }
      var e := Auth(assoc, assoclen, src, cryptlen);
      if e.Err? {
        return Err(e.error);
      }
      var out := Seal(Flatten(src)[..cryptlen]);
      return Ok(out);
    }

    // counter mode over the MAC and the message, then the tag to the end
    method Seal(msg: Bytes) returns (out: Bytes)
      requires Valid() && CheckIv(iv[..])
      modifies mac, mac.odata, iv
      ensures Valid()
      ensures out == TagLast(Ctr(mac.E, CounterBlock(old(iv[..])), old(mac.odata[..]) + msg), m)
      ensures iv[..] == AdvancedIv(old(iv[..]), |msg|)
    {
      ClearCounter();
      var both := CtrCrypt(mac.odata[..] + msg);
      mac.Store(both[..16]);
      out := both[16..] + mac.odata[..m];
    }

    // crypto_ccm_decrypt; the source holds the ciphertext and the tag
    method Decrypt(assoc: seq<Bytes>, assoclen: nat, src: seq<Bytes>, cryptlen: nat) returns (r: Result<Bytes>)
      requires Valid()
      requires assoclen <= |Flatten(assoc)| && cryptlen <= |Flatten(src)| && cryptlen < 0x1_0000_0000
      modifies mac, mac.odata, mac.idata, iv, authTag
      ensures Valid()
      ensures r == Decrypted(mac.E, old(iv[..]), m, Flatten(assoc)[..assoclen], Flatten(src)[..cryptlen], old(authTag[m..]))
    {
      if cryptlen < m || !CheckIv(iv[..]) {
        return Err(EINVAL);
      }
      r := DecryptChecked(assoc, assoclen, Flatten(src)[..cryptlen], Flatten(assoc)[..assoclen], iv[..], authTag[m..]);
    }

    method DecryptChecked(assoc: seq<Bytes>, assoclen: nat, c: Bytes, ghost adata: Bytes, ghost iv0: Block, ghost stale: Bytes)
      returns (r: Result<Bytes>)
      requires Valid() && CheckIv(iv0) && m <= |c| < 0x1_0000_0000 && iv0 == iv[..] && stale == authTag[m..]
      requires assoclen <= |Flatten(assoc)| && adata == Flatten(assoc)[..assoclen]
      modifies mac, mac.odata, mac.idata, iv, authTag
      ensures Valid() && r == Decrypted(mac.E, iv0, m, adata, c, stale)
    {
      AdvancedIvFormattable(iv0, |c| - m);
      ghost var hasAdata := adata != [];
      assert hasAdata == (assoclen != 0);
      ghost var out := Ctr(mac.E, CounterBlock(iv0), TagFirst(c, m, stale));
      ghost var adv := AdvancedIv(iv0, |c| - m);
      ghost var b0 := FormatInput(adv, m, hasAdata, |c| - m);
      DecryptedIs(mac.E, iv0, m, adata, c, stale, out, b0);
      r := OpenAndVerify(assoc, assoclen, c, out, adv, b0);
    }

    method OpenAndVerify(assoc: seq<Bytes>, assoclen: nat, c: Bytes, ghost out: Bytes, ghost adv: Block, ghost b0: Result<Block>)
      returns (r: Result<Bytes>)
      requires Valid() && CheckIv(iv[..]) && m <= |c| && assoclen <= |Flatten(assoc)|
      requires out == Ctr(mac.E, CounterBlock(iv[..]), TagFirst(c, m, authTag[m..]))
      requires Formattable(adv) && adv == AdvancedIv(iv[..], |c| - m) && b0 == FormatInput(adv, m, assoclen != 0, |c| - m)
      modifies mac, mac.odata, mac.idata, iv, authTag
      ensures Valid() && |out| >= 16
      ensures r == Checked(mac.E, b0, m, Flatten(assoc)[..assoclen], out)
    {
      var dst := Open(c, out, adv);
      assert |dst| == |c| - m;
      r := Verify(assoc, assoclen, dst, out, adv, b0);
    }

    // the MAC of what was decrypted against the decrypted tag
    method Verify(assoc: seq<Bytes>, assoclen: nat, dst: Bytes, ghost out: Bytes, ghost adv: Block, ghost b0: Result<Block>)
      returns (r: Result<Bytes>)
      requires Valid() && iv[..] == adv && Formattable(adv) && assoclen <= |Flatten(assoc)|
      requires b0 == FormatInput(adv, m, assoclen != 0, |dst|)
      requires |out| >= 16 && dst == out[16..] && authTag[..m] == out[..m]
      modifies mac, mac.odata, mac.idata
      ensures Valid()
      ensures r == Checked(mac.E, b0, m, Flatten(assoc)[..assoclen], out)
    {
      assert Flatten([dst])[..|dst|] == dst by { assert [dst][1..] == []; }
      var e := Auth(assoc, assoclen, [dst], |dst|);
      if e.Err? {
        return Err(e.error);
      }
      var neq := Memneq(authTag[..m], mac.odata[..m]);
      return if neq != 0 then Err(EBADMSG) else Ok(dst);
    }

    // Encrypting and then decrypting the result with the IV that encryption left behind gives the
    // message back, and fails only if encryption does.
    method RoundTrip(assoc: seq<Bytes>, assoclen: nat, src: seq<Bytes>, cryptlen: nat) returns (r: Result<Bytes>)
      requires Valid()
      requires assoclen <= |Flatten(assoc)| && cryptlen <= |Flatten(src)| && cryptlen + m < 0x1_0000_0000
      modifies mac, mac.odata, mac.idata, iv, authTag
      ensures Valid()
      ensures var sealed := Encrypted(mac.E, old(iv[..]), m, Flatten(assoc)[..assoclen], Flatten(src)[..cryptlen]);
        r == if sealed.Err? then Err(sealed.error) else Ok(Flatten(src)[..cryptlen])
    {
      ghost var iv0, adata, msg := iv[..], Flatten(assoc)[..assoclen], Flatten(src)[..cryptlen];
      var sealed := Encrypt(assoc, assoclen, src, cryptlen);
      if sealed.Err? {
        return Err(sealed.error);
      }
      var c := sealed.value;
      EncryptedFormats(mac.E, iv0, m, adata, msg);
      IvLeftBehind(iv0, cryptlen);
      EncryptThenDecrypt(mac.E, iv0, iv[..], m, adata, msg, c, authTag[m..]);
      assert Flatten([c])[..|c|] == c by { assert [c][1..] == []; }
      r := Decrypt(assoc, assoclen, [c], |c|);
    }

    // counter mode over the tag buffer and the ciphertext
    method Open(c: Bytes, ghost out: Bytes, ghost adv: Block) returns (dst: Bytes)
      requires Valid() && CheckIv(iv[..]) && m <= |c| && adv == AdvancedIv(iv[..], |c| - m)
      requires out == Ctr(mac.E, CounterBlock(iv[..]), TagFirst(c, m, authTag[m..]))
      modifies iv, authTag
      ensures Valid()
      ensures |out| == 16 + |c| - m && dst == out[16..] && |dst| == |c| - m && authTag[..m] == out[..m]
      ensures iv[..] == adv
    {
      var n := |c| - m;
      SetTag(c[n..]);
      ClearCounter();
      assert authTag[..] + c[..n] == TagFirst(c, m, old(authTag[m..]));
      var both := CtrCrypt(authTag[..] + c[..n]);
      SetTag(both[..16]);
      dst := both[16..];
    }

    // copy to the beginning of the tag buffer
    method SetTag(data: Bytes)
      requires authTag.Length == 16 && |data| <= 16
      modifies authTag
      ensures authTag[..] == data + old(authTag[|data|..])
    {
      forall k | 0 <= k < |data| {
        authTag[k] := data[k];
      }
    }
  }
}
