/**
  CCM authenticated encryption and decryption (crypto_ccm_auth, crypto_ccm_encrypt,
  crypto_ccm_decrypt, crypto_memneq in crypto-ccm.c; sections 2.3 to 2.5 of RFC 3610).

  Counter mode, a library service, is the exclusive or with the encryption of a block that
  counts up as a big-endian number; it leaves the counter advanced in the IV.
 */
module CcmAead {
  import opened CcmBytes
  import opened CcmMac
  import opened CcmFormat

  // ----- Counter mode -----

  function CounterAdd(b: Block, k: nat): Block {
    BigEndian(FromBigEndian(b) + k, |b|)
  }

  // The encryptions of the counter blocks, by number
  function Counters(E: Cipher, b: Block): nat -> Block {
    (k: nat) => E(CounterAdd(b, k))
  }

  // n bytes of key stream, from block number k on
  function KeyStream(block: nat -> Block, k: nat, n: nat): (s: Bytes)
    ensures |s| == n
    decreases n
  {
    if n <= 16 then block(k)[..n]
    else block(k) + KeyStream(block, k + 1, n - 16)
  }

  function Ctr(E: Cipher, b: Block, data: Bytes): (s: Bytes)
    ensures |s| == |data|
  {
    Xor(data, KeyStream(Counters(E, b), 0, |data|))
  }

  function BlockCount(n: nat): nat {
    (n + 15) / 16
  }

  // The IV with its counter field cleared.
  function CounterBlock(iv: Block): Block
    requires CheckIv(iv)
  {
    Nonce(iv) + Zeros(LengthWidth(iv))
  }

  // ----- The two operations -----

  function Mac(E: Cipher, b0: Block, adata: Bytes, msg: Bytes): Block {
    Cbc(E, Zeros(16), Format(b0, adata, msg))
  }

  // crypto_ccm_encrypt: the ciphertext followed by the encrypted tag
  function Encrypted(E: Cipher, iv: Block, m: nat, adata: Bytes, msg: Bytes): Result<Bytes>
    requires AuthSize(m)
  {
    if !CheckIv(iv) then Err(EINVAL)
    else
      match FormatInput(iv, m, adata != [], |msg|)
      case Err(e) => Err(e)
      case Ok(b0) =>
        Ok(TagLast(Ctr(E, CounterBlock(iv), Mac(E, b0, adata, msg) + msg), m))
  }

  // Copy the tag to the end of the destination.
  function TagLast(out: Bytes, m: nat): Bytes
    requires m <= 16 <= |out|
  {
    out[16..] + out[..m]
  }

  // The IV that crypto_ccm_decrypt formats, after counter mode has run over n bytes and a tag.
  function AdvancedIv(iv: Block, n: nat): Block
    requires CheckIv(iv)
  {
    CounterAdd(CounterBlock(iv), BlockCount(16 + n))
  }

  function FormatAdvanced(iv: Block, m: nat, hasAdata: bool, n: nat): Result<Block>
    requires CheckIv(iv) && AuthSize(m) && n < 0x1_0000_0000
  {
    AdvancedIvFormattable(iv, n);
    FormatInput(AdvancedIv(iv, n), m, hasAdata, n)
  }

  // crypto_ccm_decrypt; `stale` is what the tag buffer held beyond the tag
  function Decrypted(E: Cipher, iv: Block, m: nat, adata: Bytes, c: Bytes, stale: Bytes): Result<Bytes>
    requires AuthSize(m) && |stale| == 16 - m && |c| < 0x1_0000_0000
  {
    if |c| < m || !CheckIv(iv) then Err(EINVAL)
    else
      match FormatAdvanced(iv, m, adata != [], |c| - m)
      case Err(e) => Err(e)
      case Ok(b0) => Verified(E, b0, m, adata, Ctr(E, CounterBlock(iv), TagFirst(c, m, stale)))
  }

  // The tag buffer followed by the ciphertext.
  function TagFirst(c: Bytes, m: nat, stale: Bytes): (s: Bytes)
    requires m <= |c| && m <= 16 && |stale| == 16 - m
    ensures |s| == 16 + |c| - m
  {
    c[|c| - m..] + stale + c[..|c| - m]
  }

  function Verified(E: Cipher, b0: Block, m: nat, adata: Bytes, out: Bytes): Result<Bytes>
    requires m <= 16 <= |out|
  {
    if out[..m] != Mac(E, b0, adata, out[16..])[..m] then Err(EBADMSG) else Ok(out[16..])
  }

  // The tag is checked once the first block could be formatted.
  function Checked(E: Cipher, b0: Result<Block>, m: nat, adata: Bytes, out: Bytes): Result<Bytes>
    requires m <= 16 <= |out|
  {
    if b0.Err? then Err(b0.error) else Verified(E, b0.value, m, adata, out)
  }

  // The steps of decryption after counter mode, as one function.
  lemma DecryptedIs(E: Cipher, iv: Block, m: nat, adata: Bytes, c: Bytes, stale: Bytes, out: Bytes, b0: Result<Block>)
    requires AuthSize(m) && |stale| == 16 - m && m <= |c| < 0x1_0000_0000 && CheckIv(iv)
    requires out == Ctr(E, CounterBlock(iv), TagFirst(c, m, stale)) && Formattable(AdvancedIv(iv, |c| - m))
    requires b0 == FormatInput(AdvancedIv(iv, |c| - m), m, adata != [], |c| - m)
    ensures Decrypted(E, iv, m, adata, c, stale) == Checked(E, b0, m, adata, out)
  {
  }

  // ----- Big-endian counters -----

  lemma ZerosValue(n: nat)
    ensures Zeros(n) == BigEndian(0, n) && FromBigEndian(Zeros(n)) == 0
  {
    BigEndianLeading(0, n, 0);
    assert BigEndian(0, n)[..n] == BigEndian(0, n);
    BigEndianReadsBack(0, n);
  }

  // The counter stays inside its field: as long as it is less than 256^L, the nonce is intact.
  lemma CounterStaysInField(iv: Block, k: nat)
    requires CheckIv(iv) && k < Pow256(LengthWidth(iv))
    ensures CounterAdd(CounterBlock(iv), k) == Nonce(iv) + BigEndian(k, LengthWidth(iv))
  {
    var l := LengthWidth(iv);
    var s := Nonce(iv) + BigEndian(k, l);
    FromBigEndianConcat(Nonce(iv), Zeros(l));
    FromBigEndianConcat(Nonce(iv), BigEndian(k, l));
    ZerosValue(l);
    BigEndianReadsBack(k, l);
    BigEndianBack(s, FromBigEndian(s));
  }

  // Counter mode over a tag and n bytes of message overflows everything after L'.
  predicate Carries(iv: Block, n: nat)
    requires CheckIv(iv)
  {
    FromBigEndian(CounterBlock(iv)[1..]) + BlockCount(16 + n) >= Pow256(|iv| - 1)
  }

  // A counter that does leave its field still leaves L' small enough to format.
  lemma AdvancedIvFormattable(iv: Block, n: nat)
    requires CheckIv(iv) && n < 0x1_0000_0000
    ensures Formattable(AdvancedIv(iv, n))
    ensures LengthWidth(AdvancedIv(iv, n)) == LengthWidth(iv) + if Carries(iv, n) then 1 else 0
  {
    SmallByte(iv[0], 7);
    AdvancedLeads(iv, n);
    SmallByte(AdvancedIv(iv, n)[0], 14);
  }

  lemma AdvancedLeads(iv: Block, n: nat)
    requires CheckIv(iv) && n < 0x1_0000_0000 && iv[0] as int <= 7
    ensures AdvancedIv(iv, n)[0] as int == iv[0] as int + if Carries(iv, n) then 1 else 0
  {
    CountIsSmall(n, |iv| - 1);
    AddedLeads(CounterBlock(iv), iv[0], BlockCount(16 + n));
  }

  lemma AddedLeads(cb: Block, first: bv8, k: nat)
    requires cb[0] == first && first as int <= 7 && k < Pow256(|cb| - 1)
    ensures CounterAdd(cb, k)[0] as int ==
      first as int + if FromBigEndian(cb[1..]) + k >= Pow256(|cb| - 1) then 1 else 0
  {
    CarryLeads(cb, k, first as int);
  }

  lemma CountIsSmall(n: nat, w: nat)
    requires n < 0x1_0000_0000 && w >= 4
    ensures BlockCount(16 + n) < Pow256(w)
  {
    SmallWidths();
    Pow256Grows(4, w);
  }

  lemma SmallByte(x: bv8, bound: bv8)
    ensures 1 <= x <= bound <==> 1 <= x as int <= bound as int
  {
  }

  // ----- Decryption inverts encryption -----

  predicate SameNonce(iv: Block, iv': Block) {
    CheckIv(iv) && iv'[0] == iv[0] && Nonce(iv') == Nonce(iv)
  }

  // Counter mode over a tag and n bytes of message stays inside the counter field.
  predicate CounterFits(iv: Block, n: nat)
    requires CheckIv(iv)
  {
    BlockCount(16 + n) < Pow256(LengthWidth(iv))
  }

  lemma AcceptedCounterFits(iv: Block, n: nat)
    requires CheckIv(iv) && n < 0x1_0000_0000 && SetMsgLen(n, LengthWidth(iv)).Ok?
    ensures CounterFits(iv, n)
  {
    CountBelow(n, LengthWidth(iv));
  }

  // The block B0 depends on the nonce only, so it is the same before and after counter mode as
  // long as the counter fits.  If it does not, encrypt refuses the length, and decrypt refuses it
  // too unless the counter carries into L' and the longer length fits the wider field.
  lemma SameFirstBlock(iv: Block, iv': Block, m: nat, hasAdata: bool, n: nat)
    requires SameNonce(iv, iv') && AuthSize(m) && n < 0x1_0000_0000
    ensures CounterFits(iv, n) ==> FormatAdvanced(iv', m, hasAdata, n) == FormatInput(iv, m, hasAdata, n)
    ensures !CounterFits(iv, n) ==> FormatInput(iv, m, hasAdata, n) == Err(EOVERFLOW)
    ensures !CounterFits(iv, n) ==>
      (FormatAdvanced(iv', m, hasAdata, n) == FormatInput(iv, m, hasAdata, n) <==>
       !(Carries(iv, n) && SetMsgLen(n, LengthWidth(iv) + 1).Ok?))
  {
    if CounterFits(iv, n) {
      FirstBlockFits(iv, iv', m, hasAdata, n);
    } else {
      FirstBlockOverflows(iv, iv', m, hasAdata, n);
    }
  }

  lemma FirstBlockFits(iv: Block, iv': Block, m: nat, hasAdata: bool, n: nat)
    requires SameNonce(iv, iv') && AuthSize(m) && n < 0x1_0000_0000 && CounterFits(iv, n)
    ensures FormatAdvanced(iv', m, hasAdata, n) == FormatInput(iv, m, hasAdata, n)
  {
    SameCounter(iv, iv');
    CounterStaysInField(iv', BlockCount(16 + n));
    AdvancedNonce(iv', n);
    SameFormat(iv, AdvancedIv(iv', n), m, hasAdata, n);
  }

  lemma SameFormat(iv: Block, iv': Block, m: nat, hasAdata: bool, n: nat)
    requires SameNonce(iv, iv') && AuthSize(m)
    ensures FormatInput(iv', m, hasAdata, n) == FormatInput(iv, m, hasAdata, n)
  {
  }

  lemma FirstBlockOverflows(iv: Block, iv': Block, m: nat, hasAdata: bool, n: nat)
    requires SameNonce(iv, iv') && AuthSize(m) && n < 0x1_0000_0000 && !CounterFits(iv, n)
    ensures FormatInput(iv, m, hasAdata, n) == Err(EOVERFLOW)
    ensures FormatAdvanced(iv', m, hasAdata, n) == Err(EOVERFLOW) <==>
      !(Carries(iv, n) && SetMsgLen(n, LengthWidth(iv) + 1).Ok?)
  {
    SameCounter(iv, iv');
    AdvancedIvFormattable(iv', n);
    Refused(iv, n);
    OverflowedFormat(iv, AdvancedIv(iv', n), m, hasAdata, n, Carries(iv, n));
  }

  lemma OverflowedFormat(iv: Block, adv: Block, m: nat, hasAdata: bool, n: nat, wide: bool)
    requires Formattable(iv) && Formattable(adv) && AuthSize(m) && SetMsgLen(n, LengthWidth(iv)).Err?
    requires LengthWidth(adv) == LengthWidth(iv) + if wide then 1 else 0
    ensures FormatInput(iv, m, hasAdata, n) == Err(EOVERFLOW)
    ensures FormatInput(adv, m, hasAdata, n) == Err(EOVERFLOW) <==> !(wide && SetMsgLen(n, LengthWidth(iv) + 1).Ok?)
  {
    OnlyOverflow(iv, m, hasAdata, n);
    OnlyOverflow(adv, m, hasAdata, n);
  }

  // Formatting fails only for the length field.
  lemma OnlyOverflow(iv: Block, m: nat, hasAdata: bool, n: nat)
    requires Formattable(iv) && AuthSize(m)
    ensures FormatInput(iv, m, hasAdata, n) == Err(EOVERFLOW) <==> SetMsgLen(n, LengthWidth(iv)).Err?
  {
  }

  lemma SameCounter(iv: Block, iv': Block)
    requires SameNonce(iv, iv')
    ensures CheckIv(iv') && LengthWidth(iv') == LengthWidth(iv) && CounterBlock(iv') == CounterBlock(iv)
  {
  }

  lemma Refused(iv: Block, n: nat)
    requires CheckIv(iv) && n < 0x1_0000_0000 && !CounterFits(iv, n)
    ensures SetMsgLen(n, LengthWidth(iv)) == Err(EOVERFLOW)
  {
    if SetMsgLen(n, LengthWidth(iv)).Ok? {
      AcceptedCounterFits(iv, n);
    }
  }

  // A counter can carry into L' only if every nonce byte but the last is 0xff.
  predicate NonceOnes(iv: Block)
    requires CheckIv(iv)
  {
    forall i :: 1 <= i < 15 - LengthWidth(iv) ==> iv[i] == 0xff
  }

  lemma CarryMeansOnes(iv: Block, n: nat)
    requires CheckIv(iv) && n < 0x1_0000_0000 && Carries(iv, n) && SetMsgLen(n, LengthWidth(iv) + 1).Ok?
    ensures NonceOnes(iv)
  {
    CountBelow(n, LengthWidth(iv) + 1);
    TailOnes(iv, CounterBlock(iv)[1..], BlockCount(16 + n), LengthWidth(iv));
  }

  lemma TailOnes(iv: Block, tail: Bytes, k: nat, l: nat)
    requires CheckIv(iv) && l == LengthWidth(iv) && tail == CounterBlock(iv)[1..] && k < Pow256(l + 1)
    requires FromBigEndian(tail) + k >= Pow256(|tail|)
    ensures NonceOnes(iv)
  {
    TailIsNonce(iv, tail, l);
    CarryNeedsOnes(tail, k, l + 1);
    forall i | 1 <= i < 15 - l
      ensures iv[i] == 0xff
    {
      assert tail[i - 1] == 0xff;
    }
  }

  lemma TailIsNonce(iv: Block, tail: Bytes, l: nat)
    requires CheckIv(iv) && l == LengthWidth(iv) && tail == CounterBlock(iv)[1..]
    ensures |tail| == 15 && forall i :: 1 <= i < 16 - l ==> iv[i] == tail[i - 1]
  {
  }

  // The number of blocks of an accepted length fits the width of the length.
  lemma CountBelow(n: nat, w: nat)
    requires n < 0x1_0000_0000 && w >= 2 && SetMsgLen(n, w).Ok?
    ensures BlockCount(16 + n) < Pow256(w)
  {
    SmallWidths();
    if w >= 4 {
      CountIsSmall(n, w);
    }
  }

  lemma AdvancedNonce(iv: Block, n: nat)
    requires CheckIv(iv)
    requires AdvancedIv(iv, n) == Nonce(iv) + BigEndian(BlockCount(16 + n), LengthWidth(iv))
    ensures SameNonce(iv, AdvancedIv(iv, n))
  {
    assert AdvancedIv(iv, n)[0] == Nonce(iv)[0] == iv[0];
    assert AdvancedIv(iv, n)[..|Nonce(iv)|] == Nonce(iv);
  }

  // The first counter block covers the tag, the following ones the message.
  lemma CtrParts(E: Cipher, b: Block, tag: Block, data: Bytes)
    ensures Ctr(E, b, tag + data) == Xor(tag, E(CounterAdd(b, 0))) + Xor(data, KeyStream(Counters(E, b), 1, |data|))
  {
    KeyStreamFirst(E, b, |data|);
    assert |tag + data| == 16 + |data|;
    XorConcat(tag, data, E(CounterAdd(b, 0)), KeyStream(Counters(E, b), 1, |data|));
  }

  lemma KeyStreamFirst(E: Cipher, b: Block, n: nat)
    ensures KeyStream(Counters(E, b), 0, 16 + n) == E(CounterAdd(b, 0)) + KeyStream(Counters(E, b), 1, n)
  {
    FirstBlock(Counters(E, b), n);
  }

  lemma FirstBlock(block: nat -> Block, n: nat)
    ensures KeyStream(block, 0, 16 + n) == block(0) + KeyStream(block, 1, n)
  {
    if n == 0 {
      assert block(0)[..16] == block(0) == block(0) + block(1)[..0];
    }
  }

  lemma {:induction false} KeyStreamBlock(block: nat -> Block, k: nat, n: nat, c: nat, r: nat, i: nat)
    requires r < 16 && k <= c && i == 16 * (c - k) + r < n
    ensures KeyStream(block, k, n)[i] == block(c)[r]
    decreases c - k
  {
    if k < c {
      KeyStreamBlock(block, k + 1, n - 16, c, r, i - 16);
    }
  }

  // Byte r of block q of the key stream is byte r of the encryption of counter block c = k + q.
  lemma KeyStreamAt(E: Cipher, b: Block, k: nat, n: nat, c: nat, r: nat, i: nat)
    requires r < 16 && k <= c && i == 16 * (c - k) + r < n
    ensures KeyStream(Counters(E, b), k, n)[i] == E(CounterAdd(b, c))[r]
  {
    KeyStreamBlock(Counters(E, b), k, n, c, r, i);
  }

  // What encryption appends to the encrypted message.
  lemma EncryptedParts(E: Cipher, iv: Block, m: nat, adata: Bytes, msg: Bytes, b0: Block, mac: Block)
    requires AuthSize(m) && CheckIv(iv) && FormatInput(iv, m, adata != [], |msg|) == Ok(b0)
    requires mac == Mac(E, b0, adata, msg)
    ensures var b := CounterBlock(iv);
      Encrypted(E, iv, m, adata, msg)
        == Ok(Xor(msg, KeyStream(Counters(E, b), 1, |msg|)) + Xor(mac[..m], E(CounterAdd(b, 0))[..m]))
  {
    TagLastParts(E, CounterBlock(iv), mac, msg, m);
  }

  // Byte i of the encrypted message takes byte i mod 16 of the encryption of counter block
  // 1 + i / 16; the tag takes the encryption of counter block 0.
  lemma EncryptedBytes(E: Cipher, iv: Block, m: nat, adata: Bytes, msg: Bytes, b0: Block, mac: Block, out: Bytes, i: nat)
    requires AuthSize(m) && CheckIv(iv) && FormatInput(iv, m, adata != [], |msg|) == Ok(b0)
    requires mac == Mac(E, b0, adata, msg)
    requires Encrypted(E, iv, m, adata, msg) == Ok(out) && i < |out|
    ensures |out| == |msg| + m
    ensures i < |msg| ==> out[i] == msg[i] ^ E(CounterAdd(CounterBlock(iv), 1 + i / 16))[i % 16]
    ensures i >= |msg| ==> out[i] == mac[i - |msg|] ^ E(CounterAdd(CounterBlock(iv), 0))[i - |msg|]
  {
    EncryptedParts(E, iv, m, adata, msg, b0, mac);
    EncryptedByte(E, CounterBlock(iv), m, msg, mac, out, i);
  }

  lemma EncryptedByte(E: Cipher, b: Block, m: nat, msg: Bytes, mac: Block, out: Bytes, i: nat)
    requires m <= 16 && i < |out|
    requires out == Xor(msg, KeyStream(Counters(E, b), 1, |msg|)) + Xor(mac[..m], E(CounterAdd(b, 0))[..m])
    ensures |out| == |msg| + m
    ensures i < |msg| ==> out[i] == msg[i] ^ E(CounterAdd(b, 1 + i / 16))[i % 16]
    ensures i >= |msg| ==> out[i] == mac[i - |msg|] ^ E(CounterAdd(b, 0))[i - |msg|]
  {
    var ks := KeyStream(Counters(E, b), 1, |msg|);
    XorParts(msg, ks, mac, E(CounterAdd(b, 0)), m, out, i);
    if i < |msg| {
      KeyStreamByte(E, b, ks, i);
    }
  }

  lemma XorParts(msg: Bytes, ks: Bytes, mac: Block, first: Block, m: nat, out: Bytes, i: nat)
    requires |ks| == |msg| && m <= 16
    requires out == Xor(msg, ks) + Xor(mac[..m], first[..m]) && i < |out|
    ensures |out| == |msg| + m
    ensures if i < |msg| then out[i] == msg[i] ^ ks[i] else out[i] == mac[i - |msg|] ^ first[i - |msg|]
  {
  }

  lemma KeyStreamByte(E: Cipher, b: Block, ks: Bytes, i: nat)
    requires i < |ks| && ks == KeyStream(Counters(E, b), 1, |ks|)
    ensures ks[i] == E(CounterAdd(b, 1 + i / 16))[i % 16]
  {
    KeyStreamAt(E, b, 1, |ks|, 1 + i / 16, i % 16, i);
  }

  // Every counter block used for an accepted length keeps the nonce.
  lemma AcceptedCounters(iv: Block, m: nat, hasAdata: bool, n: nat, b0: Block, k: nat)
    requires AuthSize(m) && CheckIv(iv) && FormatInput(iv, m, hasAdata, n) == Ok(b0) && n < 0x1_0000_0000
    requires k <= BlockCount(n)
    ensures CounterAdd(CounterBlock(iv), k) == Nonce(iv) + BigEndian(k, LengthWidth(iv))
  {
    OnlyOverflow(iv, m, hasAdata, n);
    AcceptedCounterFits(iv, n);
    CounterStaysInField(iv, k);
  }

  lemma TagLastParts(E: Cipher, b: Block, mac: Block, msg: Bytes, m: nat)
    requires m <= 16
    ensures TagLast(Ctr(E, b, mac + msg), m)
      == Xor(msg, KeyStream(Counters(E, b), 1, |msg|)) + Xor(mac[..m], E(CounterAdd(b, 0))[..m])
  {
    CtrParts(E, b, mac, msg);
    XorTake(mac, E(CounterAdd(b, 0)), m);
    TagLastConcat(Xor(mac, E(CounterAdd(b, 0))), Xor(msg, KeyStream(Counters(E, b), 1, |msg|)), m);
  }

  lemma TagLastConcat(tag: Block, data: Bytes, m: nat)
    requires m <= 16
    ensures TagLast(tag + data, m) == data + tag[..m]
  {
  }

  lemma XorTake(a: Bytes, b: Bytes, m: nat)
    requires |a| == |b| && m <= |a|
    ensures Xor(a, b)[..m] == Xor(a[..m], b[..m])
  {
  }

  // What decryption finds in the tag buffer and as the message.
  lemma DecryptedParts(E: Cipher, b: Block, m: nat, msg: Bytes, tag: Bytes, stale: Bytes)
    requires m <= 16 && |tag| == m && |stale| == 16 - m
    ensures var out := Ctr(E, b, TagFirst(msg + tag, m, stale));
      && out[..m] == Xor(tag, E(CounterAdd(b, 0))[..m])
      && out[16..] == Xor(msg, KeyStream(Counters(E, b), 1, |msg|))
  {
    var buffer := tag + stale;
    TagFirstConcat(msg, tag, stale);
    CtrParts(E, b, buffer, msg);
    XorTake(buffer, E(CounterAdd(b, 0)), m);
    TakeDrop(Xor(buffer, E(CounterAdd(b, 0))), Xor(msg, KeyStream(Counters(E, b), 1, |msg|)), m);
  }

  lemma TagFirstConcat(msg: Bytes, tag: Bytes, stale: Bytes)
    requires |tag| + |stale| == 16
    ensures TagFirst(msg + tag, |tag|, stale) == (tag + stale) + msg
    ensures (tag + stale)[..|tag|] == tag
  {
  }

  lemma TakeDrop(x: Block, y: Bytes, m: nat)
    requires m <= 16
    ensures (x + y)[..m] == x[..m] && (x + y)[16..] == y
  {
  }

  // Opening what was sealed gives back the message and the beginning of the MAC.
  lemma OpenSealed(E: Cipher, b: Block, m: nat, msg: Bytes, mac: Block, stale: Bytes)
    requires m <= 16 && |stale| == 16 - m
    ensures var c := Xor(msg, KeyStream(Counters(E, b), 1, |msg|)) + Xor(mac[..m], E(CounterAdd(b, 0))[..m]);
      var out := Ctr(E, b, TagFirst(c, m, stale));
      out[..m] == mac[..m] && out[16..] == msg
  {
    var ks, k0 := KeyStream(Counters(E, b), 1, |msg|), E(CounterAdd(b, 0))[..m];
    DecryptedParts(E, b, m, Xor(msg, ks), Xor(mac[..m], k0), stale);
    XorTwice(msg, ks);
    XorTwice(mac[..m], k0);
  }

  // Decryption verifies against the B0 of encryption.
  lemma DecryptedVerifies(E: Cipher, iv: Block, iv': Block, m: nat, adata: Bytes, c: Bytes, stale: Bytes, b0: Block)
    requires AuthSize(m) && |stale| == 16 - m && SameNonce(iv, iv') && m <= |c| < 0x1_0000_0000
    requires CounterFits(iv, |c| - m) && FormatInput(iv, m, adata != [], |c| - m) == Ok(b0)
    ensures Decrypted(E, iv', m, adata, c, stale)
      == Verified(E, b0, m, adata, Ctr(E, CounterBlock(iv), TagFirst(c, m, stale)))
  {
    SameFirstBlock(iv, iv', m, adata != [], |c| - m);
    SameCounter(iv, iv');
  }

  lemma VerifiedWhenOpened(E: Cipher, b0: Block, m: nat, adata: Bytes, out: Bytes, msg: Bytes)
    requires m <= 16 <= |out| && out[..m] == Mac(E, b0, adata, msg)[..m] && out[16..] == msg
    ensures Verified(E, b0, m, adata, out) == Ok(msg)
  {
  }

  // Sealing with a given first block, then opening with the same one.
  lemma SealThenOpen(E: Cipher, iv: Block, iv': Block, m: nat, adata: Bytes, msg: Bytes, c: Bytes, stale: Bytes, b0: Block, mac: Block, out: Bytes)
    requires AuthSize(m) && |stale| == 16 - m && SameNonce(iv, iv') && |msg| + m < 0x1_0000_0000
    requires FormatInput(iv, m, adata != [], |msg|) == Ok(b0) && mac == Mac(E, b0, adata, msg)
    requires CounterFits(iv, |msg|) && |c| == |msg| + m
    requires |out| >= 16 && out == Ctr(E, CounterBlock(iv), TagFirst(c, m, stale)) && out[..m] == mac[..m] && out[16..] == msg
    ensures Decrypted(E, iv', m, adata, c, stale) == Ok(msg)
  {
    DecryptedVerifies(E, iv, iv', m, adata, c, stale, b0);
    VerifiedWhenOpened(E, b0, m, adata, out, msg);
  }

  // An accepted message was formatted.
  lemma EncryptedFormats(E: Cipher, iv: Block, m: nat, adata: Bytes, msg: Bytes)
    requires AuthSize(m) && Encrypted(E, iv, m, adata, msg).Ok?
    ensures CheckIv(iv) && FormatInput(iv, m, adata != [], |msg|).Ok? && SetMsgLen(|msg|, LengthWidth(iv)).Ok?
  {
  }

  // Decrypting what encrypt produced returns the message, with any IV of the same nonce.
  lemma EncryptThenDecrypt(E: Cipher, iv: Block, iv': Block, m: nat, adata: Bytes, msg: Bytes, c: Bytes, stale: Bytes)
    requires AuthSize(m) && |stale| == 16 - m && SameNonce(iv, iv') && |msg| + m < 0x1_0000_0000
    requires Encrypted(E, iv, m, adata, msg) == Ok(c)
    ensures |c| == |msg| + m && Decrypted(E, iv', m, adata, c, stale) == Ok(msg)
  {
    EncryptedFormats(E, iv, m, adata, msg);
    var b0 := FormatInput(iv, m, adata != [], |msg|).value;
    var mac := Mac(E, b0, adata, msg);
    EncryptedParts(E, iv, m, adata, msg, b0, mac);
    AcceptedCounterFits(iv, |msg|);
    OpenSealed(E, CounterBlock(iv), m, msg, mac, stale);
    SealThenOpen(E, iv, iv', m, adata, msg, c, stale, b0, mac, Ctr(E, CounterBlock(iv), TagFirst(c, m, stale)));
  }

  // In particular with the IV that encrypt left behind.
  lemma IvLeftBehind(iv: Block, n: nat)
    requires CheckIv(iv) && n < 0x1_0000_0000 && SetMsgLen(n, LengthWidth(iv)).Ok?
    ensures SameNonce(iv, AdvancedIv(iv, n))
  {
    AcceptedCounterFits(iv, n);
    CounterStaysInField(iv, BlockCount(16 + n));
    AdvancedNonce(iv, n);
  }

  // Conversely, what decrypt accepts is what encrypt produces from the message, exactly if the
  // counter fits.  Otherwise encrypt refuses the message; decrypt accepted it because the
  // counter carried into L', for which all nonce bytes but the last must be 0xff.
  lemma DecryptThenEncrypt(E: Cipher, iv: Block, iv': Block, m: nat, adata: Bytes, c: Bytes, msg: Bytes, stale: Bytes)
    requires AuthSize(m) && |stale| == 16 - m && SameNonce(iv, iv') && |c| < 0x1_0000_0000
    requires Decrypted(E, iv', m, adata, c, stale) == Ok(msg)
    ensures |c| == |msg| + m
    ensures Encrypted(E, iv, m, adata, msg) == Ok(c) <==> CounterFits(iv, |msg|)
    ensures !CounterFits(iv, |msg|) ==>
      Encrypted(E, iv, m, adata, msg) == Err(EOVERFLOW) && Carries(iv, |msg|) && NonceOnes(iv)
  {
    SameCounter(iv, iv');
    DecryptedFormats(E, iv', m, adata, c, msg, stale);
    if CounterFits(iv, |msg|) {
      var b0 := AcceptedFormat(iv, iv', m, adata != [], |msg|);
      ReopenedIsSealed(E, iv, iv', m, adata, c, msg, stale, b0, Ctr(E, CounterBlock(iv), TagFirst(c, m, stale)));
    } else {
      AcceptedOverflow(iv, iv', m, adata != [], |msg|);
    }
  }

  lemma DecryptedFormats(E: Cipher, iv: Block, m: nat, adata: Bytes, c: Bytes, msg: Bytes, stale: Bytes)
    requires AuthSize(m) && |stale| == 16 - m && |c| < 0x1_0000_0000
    requires Decrypted(E, iv, m, adata, c, stale) == Ok(msg)
    ensures |c| == |msg| + m && CheckIv(iv) && FormatAdvanced(iv, m, adata != [], |msg|).Ok?
  {
  }

  // A length that encrypt refuses and decrypt formats.
  lemma AcceptedOverflow(iv: Block, iv': Block, m: nat, hasAdata: bool, n: nat)
    requires SameNonce(iv, iv') && AuthSize(m) && n < 0x1_0000_0000 && !CounterFits(iv, n)
    requires CheckIv(iv') && FormatAdvanced(iv', m, hasAdata, n).Ok?
    ensures FormatInput(iv, m, hasAdata, n) == Err(EOVERFLOW) && Carries(iv, n) && NonceOnes(iv)
  {
    SameFirstBlock(iv, iv', m, hasAdata, n);
    CarryMeansOnes(iv, n);
  }

  lemma AcceptedFormat(iv: Block, iv': Block, m: nat, hasAdata: bool, n: nat) returns (b0: Block)
    requires SameNonce(iv, iv') && AuthSize(m) && n < 0x1_0000_0000 && CounterFits(iv, n)
    requires CheckIv(iv') && FormatAdvanced(iv', m, hasAdata, n).Ok?
    ensures FormatInput(iv, m, hasAdata, n) == Ok(b0)
  {
    FirstBlockFits(iv, iv', m, hasAdata, n);
    b0 := FormatInput(iv, m, hasAdata, n).value;
  }

  lemma ReopenedIsSealed(E: Cipher, iv: Block, iv': Block, m: nat, adata: Bytes, c: Bytes, msg: Bytes, stale: Bytes, b0: Block, out: Bytes)
    requires AuthSize(m) && |stale| == 16 - m && SameNonce(iv, iv') && |c| == |msg| + m < 0x1_0000_0000
    requires CounterFits(iv, |msg|) && Decrypted(E, iv', m, adata, c, stale) == Ok(msg)
    requires FormatInput(iv, m, adata != [], |msg|) == Ok(b0) && out == Ctr(E, CounterBlock(iv), TagFirst(c, m, stale))
    ensures Encrypted(E, iv, m, adata, msg) == Ok(c)
  {
    ReopenedVerifies(E, iv, iv', m, adata, c, msg, stale, b0, out);
    SealedAgain(E, iv, m, adata, c, msg, stale, b0, Mac(E, b0, adata, msg), out);
  }

  lemma ReopenedVerifies(E: Cipher, iv: Block, iv': Block, m: nat, adata: Bytes, c: Bytes, msg: Bytes, stale: Bytes, b0: Block, out: Bytes)
    requires AuthSize(m) && |stale| == 16 - m && SameNonce(iv, iv') && m <= |c| < 0x1_0000_0000 && |out| >= 16
    requires CounterFits(iv, |c| - m) && Decrypted(E, iv', m, adata, c, stale) == Ok(msg)
    requires FormatInput(iv, m, adata != [], |c| - m) == Ok(b0) && out == Ctr(E, CounterBlock(iv), TagFirst(c, m, stale))
    ensures Verified(E, b0, m, adata, out) == Ok(msg)
  {
    DecryptedVerifies(E, iv, iv', m, adata, c, stale, b0);
  }

  lemma SealedAgain(E: Cipher, iv: Block, m: nat, adata: Bytes, c: Bytes, msg: Bytes, stale: Bytes, b0: Block, mac: Block, out: Bytes)
    requires AuthSize(m) && CheckIv(iv) && |stale| == 16 - m && m <= |c|
    requires FormatInput(iv, m, adata != [], |msg|) == Ok(b0) && mac == Mac(E, b0, adata, msg)
    requires |out| >= 16 && out == Ctr(E, CounterBlock(iv), TagFirst(c, m, stale)) && Verified(E, b0, m, adata, out) == Ok(msg)
    ensures Encrypted(E, iv, m, adata, msg) == Ok(c)
  {
    VerifiedMeans(E, b0, m, adata, out, msg);
    SealOpened(E, CounterBlock(iv), m, c, mac, stale);
    EncryptedParts(E, iv, m, adata, msg, b0, mac);
  }

  lemma VerifiedMeans(E: Cipher, b0: Block, m: nat, adata: Bytes, out: Bytes, msg: Bytes)
    requires m <= 16 <= |out| && Verified(E, b0, m, adata, out) == Ok(msg)
    ensures msg == out[16..] && out[..m] == Mac(E, b0, adata, msg)[..m]
  {
  }

  lemma SealOpened(E: Cipher, b: Block, m: nat, c: Bytes, mac: Block, stale: Bytes)
    requires m <= 16 && m <= |c| && |stale| == 16 - m
    requires Ctr(E, b, TagFirst(c, m, stale))[..m] == mac[..m]
    ensures var msg := Ctr(E, b, TagFirst(c, m, stale))[16..];
      c == Xor(msg, KeyStream(Counters(E, b), 1, |msg|)) + Xor(mac[..m], E(CounterAdd(b, 0))[..m])
  {
    var data, tag := c[..|c| - m], c[|c| - m..];
    assert c == data + tag;
    DecryptedParts(E, b, m, data, tag, stale);
    XorTwice(data, KeyStream(Counters(E, b), 1, |data|));
    XorTwice(tag, E(CounterAdd(b, 0))[..m]);
  }
}
