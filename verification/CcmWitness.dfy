/**
  Inputs at which CCM does not do what its format promises: a length that the guard of the
  length field admits although the field cannot hold it, and a ciphertext that decrypt accepts
  although encrypt refuses every message of its length.
 */
module CcmWitness {
  import opened CcmBytes
  import opened CcmMac
  import opened CcmFormat
  import opened CcmAead

  // ----- The length field -----

  // 65536 is admitted in a field of two bytes, which then reads 0.
  lemma LengthReadsZero()
    ensures SetMsgLen(0x1_0000, 2).Ok? && FromBigEndian(SetMsgLen(0x1_0000, 2).value) == 0
  {
    SmallWidths();
    FieldOfPower(0x1_0000, 2);
  }

  lemma FieldOfPower(p: nat, w: nat)
    requires 2 <= w < 4 && p == Pow256(w) < 0x1_0000_0000
    ensures SetMsgLen(p, w).Ok? && FromBigEndian(SetMsgLen(p, w).value) == 0
  {
    LengthFieldExact(p, w);
    LengthFieldExact(0, w);
  }

  // ----- A counter that carries into L' -----

  function Ones(n: nat): (s: Bytes)
    ensures |s| == n && forall i :: 0 <= i < n ==> s[i] == 0xff
  {
    seq(n, i => 0xff)
  }

  // The cipher that maps every block to zeros: its key stream is zero, and so is every MAC.
  function ZeroCipher(): Cipher {
    (b: Block) => Zeros(16)
  }

  // L' = 1 and a nonce of 13 bytes 0xff
  function OnesIv(): Block {
    [1] + Ones(13) + Zeros(2)
  }

  lemma {:induction false} ZeroKeyStream(block: nat -> Block, k: nat, n: nat)
    requires forall j: nat :: block(j) == Zeros(16)
    ensures KeyStream(block, k, n) == Zeros(n)
    decreases n
  {
    if n > 16 {
      ZeroKeyStream(block, k + 1, n - 16);
      assert Zeros(16) + Zeros(n - 16) == Zeros(n);
    } else {
      assert Zeros(16)[..n] == Zeros(n);
    }
  }

  lemma ZeroCtr(b: Block, data: Bytes)
    ensures Ctr(ZeroCipher(), b, data) == data
  {
    ZeroKeyStream(Counters(ZeroCipher(), b), 0, |data|);
    XorWithZeros(data);
  }

  lemma XorWithZeros(data: Bytes)
    ensures Xor(data, Zeros(|data|)) == data
  {
  }

  lemma {:induction false} ZeroCbc(o: Block, data: Bytes)
    requires |data| % 16 == 0 && data != []
    ensures Cbc(ZeroCipher(), o, data) == Zeros(16)
    decreases |data|
  {
    if |data| == 16 {
      CbcBlock(ZeroCipher(), o, data);
    } else {
      var first, rest := data[..16], data[16..];
      assert data == first + rest;
      CbcConcat(ZeroCipher(), o, first, rest);
      ZeroCbc(Cbc(ZeroCipher(), o, first), rest);
    }
  }

  lemma ZeroMac(b0: Block, adata: Bytes, msg: Bytes)
    ensures Mac(ZeroCipher(), b0, adata, msg) == Zeros(16)
  {
    ZeroCbc(Zeros(16), Format(b0, adata, msg));
  }

  lemma {:induction false} OnesValue(n: nat)
    ensures FromBigEndian(Ones(n)) + 1 == Pow256(n)
  {
    if n > 0 {
      assert Ones(n)[..n - 1] == Ones(n - 1);
      OnesValue(n - 1);
    }
  }

  lemma {:induction false} PowSum(a: nat, b: nat)
    ensures Pow256(a + b) == Pow256(a) * Pow256(b)
  {
    if b > 0 {
      PowSum(a, b - 1);
      assert a + b - 1 == a + (b - 1);
    }
  }

  lemma OnesThenZeros(a: nat, b: nat)
    ensures FromBigEndian(Ones(a) + Zeros(b)) + Pow256(b) == Pow256(a + b)
  {
    FromBigEndianConcat(Ones(a), Zeros(b));
    OnesValue(a);
    ZerosValue(b);
    PowSum(a, b);
    OneMore(FromBigEndian(Ones(a)), Pow256(a), Pow256(b));
  }

  lemma OneMore(x: nat, p: nat, q: nat)
    requires x + 1 == p
    ensures x * q + q == p * q
  {
  }

  lemma OnesIvParts()
    ensures CheckIv(OnesIv()) && LengthWidth(OnesIv()) == 2
    ensures CounterBlock(OnesIv())[1..] == Ones(13) + Zeros(2)
  {
    var iv := OnesIv();
    assert iv[0] == 1;
    assert Nonce(iv) == [1] + Ones(13);
  }

  lemma OnesIvCarries(n: nat)
    requires BlockCount(16 + n) == Pow256(2)
    ensures CheckIv(OnesIv()) && Carries(OnesIv(), n) && !CounterFits(OnesIv(), n)
  {
    OnesIvParts();
    OnesThenZeros(13, 2);
  }

  lemma OnesIvFormats(m: nat, n: nat)
    requires AuthSize(m) && BlockCount(16 + n) == Pow256(2)
    ensures CheckIv(OnesIv()) && n < 0x1_0000_0000
    ensures FormatInput(OnesIv(), m, false, n) == Err(EOVERFLOW) && FormatAdvanced(OnesIv(), m, false, n).Ok?
  {
    var iv := OnesIv();
    SmallWidths();
    OnesIvParts();
    OnesIvCarries(n);
    assert SetMsgLen(n, LengthWidth(iv) + 1).Ok?;
    FirstBlockOverflows(iv, iv, m, false, n);
    AdvancedIvFormattable(iv, n);
    OnlyOverflow(AdvancedIv(iv, n), m, false, n);
  }

  lemma ZerosVerify(m: nat, n: nat, b0: Block)
    requires m <= 16
    ensures Verified(ZeroCipher(), b0, m, [], Zeros(16 + n)) == Ok(Zeros(n))
  {
    assert Zeros(16 + n)[16..] == Zeros(n);
    ZeroMac(b0, [], Zeros(n));
    assert Zeros(16 + n)[..m] == Zeros(16)[..m];
  }

  lemma ZerosOpen(m: nat, n: nat, iv: Block, b0: Result<Block>)
    requires AuthSize(m) && n + m < 0x1_0000_0000 && CheckIv(iv) && Formattable(AdvancedIv(iv, n))
    requires b0 == FormatInput(AdvancedIv(iv, n), m, false, n) && b0.Ok?
    ensures Decrypted(ZeroCipher(), iv, m, [], Zeros(n + m), Zeros(16 - m)) == Ok(Zeros(n))
  {
    var c, out := Zeros(n + m), Zeros(16 + n);
    assert TagFirst(c, m, Zeros(16 - m)) == out;
    ZeroCtr(CounterBlock(iv), out);
    ZerosVerify(m, n, b0.value);
    DecryptedIs(ZeroCipher(), iv, m, [], c, Zeros(16 - m), out, b0);
  }

  // Zeros of this length are accepted and opened, but no message of this length can be sealed.
  lemma OpensWhatNothingSeals(m: nat)
    requires AuthSize(m)
    ensures Decrypted(ZeroCipher(), OnesIv(), m, [], Zeros(1048560 + m), Zeros(16 - m)) == Ok(Zeros(1048560))
    ensures forall E: Cipher, msg: Bytes :: |msg| == 1048560 ==> Encrypted(E, OnesIv(), m, [], msg) == Err(EOVERFLOW)
  {
    var n := 1048560;
    SmallWidths();
    assert BlockCount(16 + n) == Pow256(2);
    OnesIvFormats(m, n);
    AdvancedIvFormattable(OnesIv(), n);
    ZerosOpen(m, n, OnesIv(), FormatAdvanced(OnesIv(), m, false, n));
  }
}
