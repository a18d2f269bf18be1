/**
  The formatting of CCM input (set_msg_len, format_input, format_adata in crypto-ccm.c;
  section 2.2 of RFC 3610): the first block B0, the length prefix of the associated data and
  the padding.
 */
module CcmFormat {
  import opened CcmBytes

  datatype Error = EINVAL | EOVERFLOW | EBADMSG

  datatype Result<+T> = Ok(value: T) | Err(error: Error)

  // crypto_ccm_setauthsize
  predicate AuthSize(m: nat) {
    m in {4, 6, 8, 10, 12, 14, 16}
  }

  // crypto_ccm_check_iv: L' = iv[0] is between 1 and 7
  predicate CheckIv(iv: Block) {
    1 <= iv[0] <= 7
  }

  // The length field lies inside the block.
  predicate Formattable(iv: Block) {
    1 <= iv[0] <= 14
  }

  // L, the width of the length and counter fields
  function LengthWidth(iv: Block): (l: nat)
    requires Formattable(iv)
    ensures 2 <= l <= 15
    ensures CheckIv(iv) ==> l <= 8
  {
    iv[0] as int + 1
  }

  // The part of the IV that is not counter: L' and the nonce.
  function Nonce(iv: Block): Bytes
    requires Formattable(iv)
  {
    iv[..16 - LengthWidth(iv)]
  }

  // The width of a 32-bit number.
  const WORD: nat := 4

  // set_msg_len: the message length in `csize` bytes.  The field holds at most 32 bits.
  function SetMsgLen(msglen: nat, csize: nat): Result<Bytes>
    requires csize >= 2
  {
    if csize >= WORD then Ok(Zeros(csize - WORD) + BigEndian(msglen, WORD))
    else if msglen > Pow256(csize) then Err(EOVERFLOW)
    else Ok(BigEndian(msglen, WORD)[WORD - csize..])
  }

  // The flags byte: L' in bits 0-2, (M-2)/2 in bits 3-5, presence of associated data in bit 6.
  function Flags(lp: bv8, m: nat, hasAdata: bool): bv8
    requires AuthSize(m)
  {
    lp | ByteOf(8 * ((m - 2) / 2)) | (if hasAdata then 64 else 0)
  }

  // format_input
  function FormatInput(iv: Block, m: nat, hasAdata: bool, msglen: nat): Result<Block>
    requires Formattable(iv) && AuthSize(m)
  {
    match SetMsgLen(msglen, LengthWidth(iv))
    case Err(e) => Err(e)
    case Ok(field) => SetMsgLenWidth(msglen, LengthWidth(iv)); Ok([Flags(iv[0], m, hasAdata)] + Nonce(iv)[1..] + field)
  }

  // format_adata
  function AdataPrefix(a: nat): (p: Bytes)
    ensures |p| == if a < 65280 then 2 else 6
  {
    if a < 65280 then BigEndian(a, 2) else [0xff, 0xfe] + BigEndian(a, 4)
  }

  lemma SetMsgLenWidth(msglen: nat, csize: nat)
    requires csize >= 2
    ensures SetMsgLen(msglen, csize).Ok? ==> |SetMsgLen(msglen, csize).value| == csize
  {
  }

  // All blocks that enter the MAC.
  function Format(b0: Block, adata: Bytes, msg: Bytes): (f: Bytes)
    ensures |f| % 16 == 0 && |f| >= 16
  {
    SumOfBlocks(16, |AdataBlocks(adata)|);
    SumOfBlocks(16 + |AdataBlocks(adata)|, |Pad(msg)|);
    b0 + AdataBlocks(adata) + Pad(msg)
  }

  function AdataBlocks(adata: Bytes): (f: Bytes)
    ensures |f| % 16 == 0
  {
    if adata == [] then [] else Pad(AdataPrefix(|adata|) + adata)
  }

  // ----- Reading the format back -----

  datatype Header = Header(lp: bv8, m: nat, hasAdata: bool, nonce: Bytes, msglen: nat)

  function ParseHeader(b0: Block): Header {
    var lp := b0[0] & 7;
    var l := lp as int + 1;
    Header(lp, 2 * TagField(b0[0]) + 2, b0[0] & 64 != 0, b0[1..16 - l], FromBigEndian(b0[16 - l..]))
  }

  function TagField(flags: bv8): nat {
    ((flags >> 3) & 7) as int
  }

  // The length of the associated data and of its prefix, from the blocks after B0.
  function ParsePrefix(s: Bytes): (nat, nat)
    requires |s| >= 16
  {
    if s[..2] == [0xff, 0xfe] then (6, FromBigEndian(s[2..6])) else (2, FromBigEndian(s[..2]))
  }

  datatype Input = Input(lp: bv8, m: nat, nonce: Bytes, adata: Bytes, msg: Bytes)

  predicate Fits(s: Bytes, from: nat, len: nat) {
    from + len <= |s|
  }

  // Recover everything that was formatted, if the lengths fit the data.
  function Unformat(s: Bytes): Result<Input> {
    if |s| < 16 then Err(EINVAL) else UnformatData(ParseHeader(s[..16]), s[16..])
  }

  function UnformatData(h: Header, rest: Bytes): Result<Input> {
    if !h.hasAdata then
      if !Fits(rest, 0, h.msglen) then Err(EINVAL) else Ok(Input(h.lp, h.m, h.nonce, [], rest[..h.msglen]))
    else if |rest| < 16 then Err(EINVAL)
    else
      var (p, a) := ParsePrefix(rest);
      var after := RoundUp(p + a);
      if !Fits(rest, p, a) || !Fits(rest, after, h.msglen) then Err(EINVAL)
      else Ok(Input(h.lp, h.m, h.nonce, rest[p..p + a], rest[after..after + h.msglen]))
  }

  // ----- The format is uniquely decodable -----

  // The three fields of the flags byte do not overlap.
  lemma FlagsFields(lp: bv8, m: nat, hasAdata: bool)
    requires 1 <= lp <= 7 && AuthSize(m)
    ensures var f := Flags(lp, m, hasAdata);
      f & 7 == lp && 2 * TagField(f) + 2 == m && (f & 64 != 0) == hasAdata
  {
    if
    case m == 4 => FlagsOf(lp, 8, 1);
    case m == 6 => FlagsOf(lp, 16, 2);
    case m == 8 => FlagsOf(lp, 24, 3);
    case m == 10 => FlagsOf(lp, 32, 4);
    case m == 12 => FlagsOf(lp, 40, 5);
    case m == 14 => FlagsOf(lp, 48, 6);
    case m == 16 => FlagsOf(lp, 56, 7);
  }

  lemma FlagsOf(lp: bv8, tag: bv8, field: bv8)
    requires 1 <= lp <= 7 && tag == field << 3 && 1 <= field <= 7
    ensures (lp | tag | 0) & 7 == lp && ((lp | tag | 0) >> 3) & 7 == field && (lp | tag | 0) & 64 == 0
    ensures (lp | tag | 64) & 7 == lp && ((lp | tag | 64) >> 3) & 7 == field && (lp | tag | 64) & 64 != 0
  {
  }

  // The bits of the flags byte, the reserved one included.
  lemma FlagsBits(lp: bv8, m: nat, hasAdata: bool)
    requires 1 <= lp <= 7 && AuthSize(m)
    ensures var f := Flags(lp, m, hasAdata);
      f & 7 == lp && 2 * (((f >> 3) & 7) as int) + 2 == m && (f & 64 != 0) == hasAdata && f & 128 == 0
  {
    FlagsFields(lp, m, hasAdata);
    if
    case m == 4 => Reserved(lp, 8);
    case m == 6 => Reserved(lp, 16);
    case m == 8 => Reserved(lp, 24);
    case m == 10 => Reserved(lp, 32);
    case m == 12 => Reserved(lp, 40);
    case m == 14 => Reserved(lp, 48);
    case m == 16 => Reserved(lp, 56);
  }

  lemma Reserved(lp: bv8, tag: bv8)
    requires lp <= 7 && tag <= 56
    ensures (lp | tag | 0) & 128 == 0 && (lp | tag | 64) & 128 == 0
  {
  }

  lemma {:induction false} BigEndianSuffix(n: nat, w: nat, c: nat)
    requires c <= w
    ensures BigEndian(n, w)[w - c..] == BigEndian(n, c)
  {
    if c > 0 {
      BigEndianSuffix(n / 256, w - 1, c - 1);
    }
  }

  lemma {:induction false} BigEndianLeading(n: nat, w: nat, c: nat)
    requires c <= w && n < Pow256(c)
    ensures BigEndian(n, w)[..w - c] == Zeros(w - c)
  {
    if c > 0 {
      BigEndianLeading(n / 256, w - 1, c - 1);
    } else if w > 0 {
      BigEndianLeading(0, w - 1, 0);
    }
  }

  lemma SmallWidths()
    ensures Pow256(2) == 0x1_0000 && Pow256(3) == 0x100_0000 && Pow256(4) == 0x1_0000_0000
  {
  }

  // The length field is the plain big-endian number, as long as the length is a 32-bit number.
  lemma SetMsgLenIsBigEndian(msglen: nat, csize: nat)
    requires csize >= 2 && msglen < 0x1_0000_0000 && SetMsgLen(msglen, csize).Ok?
    ensures SetMsgLen(msglen, csize).value == BigEndian(msglen, csize)
  {
    SmallWidths();
    FieldIsBigEndian(msglen, csize, WORD);
  }

  lemma FieldIsBigEndian(msglen: nat, csize: nat, w: nat)
    requires w >= csize || msglen < Pow256(w)
    ensures csize >= w ==> Zeros(csize - w) + BigEndian(msglen, w) == BigEndian(msglen, csize)
    ensures csize <= w ==> BigEndian(msglen, w)[w - csize..] == BigEndian(msglen, csize)
  {
    if csize > w {
      BigEndianWiden(msglen, csize, w);
    } else {
      BigEndianSuffix(msglen, w, csize);
    }
  }

  lemma BigEndianWiden(n: nat, w: nat, c: nat)
    requires c <= w && n < Pow256(c)
    ensures Zeros(w - c) + BigEndian(n, c) == BigEndian(n, w)
  {
    BigEndianLeading(n, w, c);
    BigEndianSuffix(n, w, c);
    var s := BigEndian(n, w);
    assert s == s[..w - c] + s[w - c..];
  }

  // The guard of set_msg_len admits one length too many when L is 2 or 3: an accepted length
  // can be read back exactly if it is less than 256^L, and 256^L itself reads as 0.
  lemma LengthFieldExact(msglen: nat, csize: nat)
    requires csize >= 2 && msglen < 0x1_0000_0000 && SetMsgLen(msglen, csize).Ok?
    ensures FromBigEndian(SetMsgLen(msglen, csize).value) == msglen <==> msglen < Pow256(csize)
    ensures msglen >= Pow256(csize) ==> csize < 4 && SetMsgLen(msglen, csize).value == SetMsgLen(0, csize).value
  {
    SmallWidths();
    SetMsgLenIsBigEndian(msglen, csize);
    if msglen < Pow256(csize) {
      BigEndianReadsBack(msglen, csize);
    } else {
      if csize >= 4 {
        Pow256Grows(4, csize);
      }
      assert msglen == Pow256(csize);
      BigEndianOfPower(csize);
      SetMsgLenIsBigEndian(0, csize);
      BigEndianReadsBack(0, csize);
    }
  }

  lemma {:induction false} BigEndianOfPower(c: nat)
    ensures BigEndian(Pow256(c), c) == BigEndian(0, c)
  {
    if c > 0 {
      var p := Pow256(c - 1);
      assert (256 * p) / 256 == p && (256 * p) % 256 == 0;
      BigEndianOfPower(c - 1);
    }
  }

  lemma HeaderReadsBack(iv: Block, m: nat, hasAdata: bool, msglen: nat)
    requires CheckIv(iv) && AuthSize(m)
    requires msglen < 0x1_0000_0000 && msglen < Pow256(LengthWidth(iv))
    ensures FormatInput(iv, m, hasAdata, msglen).Ok?
    ensures ParseHeader(FormatInput(iv, m, hasAdata, msglen).value)
      == Header(iv[0], m, hasAdata, Nonce(iv)[1..], msglen)
  {
    LengthFieldExact(msglen, LengthWidth(iv));
    FlagsFields(iv[0], m, hasAdata);
    HeaderParts(iv, m, hasAdata, msglen);
  }

  lemma HeaderParts(iv: Block, m: nat, hasAdata: bool, msglen: nat)
    requires CheckIv(iv) && AuthSize(m) && FormatInput(iv, m, hasAdata, msglen).Ok?
    ensures var b0, l := FormatInput(iv, m, hasAdata, msglen).value, LengthWidth(iv);
      && b0[0] == Flags(iv[0], m, hasAdata) && b0[1..16 - l] == Nonce(iv)[1..]
      && SetMsgLen(msglen, l).Ok? && b0[16 - l..] == SetMsgLen(msglen, l).value
  {
    SetMsgLenWidth(msglen, LengthWidth(iv));
    var nonce, field := Nonce(iv)[1..], SetMsgLen(msglen, LengthWidth(iv)).value;
    var f := [Flags(iv[0], m, hasAdata)];
    assert (f + nonce + field)[1..1 + |nonce|] == nonce && (f + nonce + field)[1 + |nonce|..] == field;
  }

  // The first block, byte by byte, as section 2.2 of RFC 3610 lays it out: L' in bits 0 to 2 of the
  // flags, (M - 2) / 2 in bits 3 to 5, the presence of associated data in bit 6, then the nonce,
  // then the message length.
  lemma FirstBlockLayout(iv: Block, m: nat, hasAdata: bool, msglen: nat)
    requires CheckIv(iv) && AuthSize(m) && msglen < 0x1_0000_0000 && FormatInput(iv, m, hasAdata, msglen).Ok?
    ensures var b0, l := FormatInput(iv, m, hasAdata, msglen).value, iv[0] as int + 1;
      && b0[0] & 7 == iv[0] && 2 * (((b0[0] >> 3) & 7) as int) + 2 == m
      && (b0[0] & 64 != 0) == hasAdata && b0[0] & 128 == 0
      && 2 <= l <= 8 && b0[1..16 - l] == iv[1..16 - l] && b0[16 - l..] == BigEndian(msglen, l)
  {
    FlagsBits(iv[0], m, hasAdata);
    HeaderParts(iv, m, hasAdata, msglen);
    SetMsgLenIsBigEndian(msglen, LengthWidth(iv));
  }

  // What enters the MAC: the first block, the prefixed associated data if there is any, and the
  // message, each of the two followed by fewer than 16 zero bytes up to a whole block.
  lemma FormatLayout(b0: Block, adata: Bytes, msg: Bytes) returns (j: nat, k: nat)
    ensures j < 16 && k < 16 && (|msg| + k) % 16 == 0
    ensures adata == [] ==> Format(b0, adata, msg) == b0 + msg + Zeros(k)
    ensures adata != [] ==>
      && (|AdataPrefix(|adata|)| + |adata| + j) % 16 == 0
      && Format(b0, adata, msg) == b0 + (AdataPrefix(|adata|) + adata + Zeros(j)) + (msg + Zeros(k))
  {
    var data := AdataPrefix(|adata|) + adata;
    j, k := RoundUp(|data|) - |data|, RoundUp(|msg|) - |msg|;
    PadIsZeros(data);
    PadIsZeros(msg);
  }

  // The parameters the source accepts: 2 <= L <= 8, and an even tag size from 4 to 16.
  lemma ParametersExact(iv: Block, m: nat)
    ensures CheckIv(iv) <==> 2 <= iv[0] as int + 1 <= 8
    ensures AuthSize(m) <==> 4 <= m <= 16 && m % 2 == 0
  {
  }

  // The prefix of the associated data: two bytes below 65280, else 0xff 0xfe and four bytes.
  lemma PrefixLayout(a: nat)
    ensures a < 65280 ==> AdataPrefix(a) == BigEndian(a, 2)
    ensures a >= 65280 ==> AdataPrefix(a)[..2] == [0xff, 0xfe] && AdataPrefix(a)[2..] == BigEndian(a, 4)
  {
  }

  lemma PrefixReadsBack(a: nat, s: Bytes)
    requires a < 0x1_0000_0000 && |s| >= 16 && AdataPrefix(a) <= s
    ensures ParsePrefix(s) == (|AdataPrefix(a)|, a)
  {
    SmallWidths();
    if a < 65280 {
      assert s[..2] == BigEndian(a, 2);
      BigEndianReadsBack(a, 2);
      EscapePrefix();
    } else {
      LongPrefix(a, s);
      BigEndianReadsBack(a, 4);
    }
  }

  lemma LongPrefix(a: nat, s: Bytes)
    requires [0xff, 0xfe] + BigEndian(a, 4) <= s
    ensures s[..2] == [0xff, 0xfe] && s[2..6] == BigEndian(a, 4)
  {
    var p := [0xff, 0xfe] + BigEndian(a, 4);
    assert s[..2] == p[..2] && s[2..6] == p[2..6];
  }

  lemma EscapePrefix()
    ensures FromBigEndian([0xff, 0xfe]) == 0xfffe
  {
    assert [0xff, 0xfe] == [0xff] + [0xfe];
    FromBigEndianConcat([0xff], [0xfe]);
    SingleByte(0xff);
    SingleByte(0xfe);
  }

  // The formatted blocks determine L', the tag size, the nonce, the associated data and the
  // message, for every message shorter than 256^L.
  lemma FormatDecodable(iv: Block, m: nat, adata: Bytes, msg: Bytes)
    requires CheckIv(iv) && AuthSize(m)
    requires |adata| < 0x1_0000_0000 && |msg| < 0x1_0000_0000 && |msg| < Pow256(LengthWidth(iv))
    ensures var b0 := FormatInput(iv, m, adata != [], |msg|);
      b0.Ok? && Unformat(Format(b0.value, adata, msg)) == Ok(Input(iv[0], m, Nonce(iv)[1..], adata, msg))
  {
    HeaderReadsBack(iv, m, adata != [], |msg|);
    var b0 := FormatInput(iv, m, adata != [], |msg|).value;
    FormatSlices(b0, adata, msg);
    DataReadsBack(ParseHeader(b0), adata, msg);
  }

  lemma FormatSlices(b0: Block, adata: Bytes, msg: Bytes)
    ensures Format(b0, adata, msg)[..16] == b0
    ensures Format(b0, adata, msg)[16..] == AdataBlocks(adata) + Pad(msg)
  {
  }

  // Where the associated data and the message lie in the blocks after B0.
  lemma DataReadsBack(h: Header, adata: Bytes, msg: Bytes)
    requires h.hasAdata == (adata != []) && h.msglen == |msg| && |adata| < 0x1_0000_0000
    ensures UnformatData(h, AdataBlocks(adata) + Pad(msg)) == Ok(Input(h.lp, h.m, h.nonce, adata, msg))
  {
    if adata == [] {
      assert AdataBlocks(adata) + Pad(msg) == Pad(msg);
    } else {
      AdataReadsBack(adata, Pad(msg));
      MessageReadsBack(h, adata, msg, AdataBlocks(adata), |AdataPrefix(|adata|)|);
    }
  }

  lemma MessageReadsBack(h: Header, adata: Bytes, msg: Bytes, blocks: Bytes, p: nat)
    requires h.hasAdata && h.msglen == |msg| && |blocks + Pad(msg)| >= 16
    requires ParsePrefix(blocks + Pad(msg)) == (p, |adata|) && RoundUp(p + |adata|) == |blocks|
    requires p + |adata| <= |blocks| && (blocks + Pad(msg))[p..p + |adata|] == adata
    ensures UnformatData(h, blocks + Pad(msg)) == Ok(Input(h.lp, h.m, h.nonce, adata, msg))
  {
    MessageSlice(blocks, msg);
  }

  lemma AdataReadsBack(adata: Bytes, later: Bytes)
    requires adata != [] && |adata| < 0x1_0000_0000
    ensures var rest, p := AdataBlocks(adata) + later, |AdataPrefix(|adata|)|;
      && |rest| >= 16 && ParsePrefix(rest) == (p, |adata|)
      && RoundUp(p + |adata|) == |AdataBlocks(adata)|
      && p + |adata| <= |rest| && rest[p..p + |adata|] == adata
  {
    AdataSlice(AdataPrefix(|adata|), adata, later);
    PrefixReadsBack(|adata|, AdataBlocks(adata) + later);
  }

  lemma MessageSlice(blocks: Bytes, msg: Bytes)
    ensures var rest := blocks + Pad(msg);
      |rest| >= |blocks| + |msg| && rest[|blocks|..|blocks| + |msg|] == msg
  {
  }

  lemma AdataSlice(prefix: Bytes, adata: Bytes, later: Bytes)
    ensures var rest := Pad(prefix + adata) + later;
      |rest| >= |prefix| + |adata| && prefix <= rest && rest[|prefix|..|prefix| + |adata|] == adata
  {
  }
}
