/**
  Byte sequences, 16-byte blocks and big-endian numbers, as used by crypto-ccm.c.
 */
module CcmBytes {

  type Bytes = seq<bv8>

  type Block = b: Bytes | |b| == 16 witness [0, 0, 0, 0, 0, 0, 0, 0, 0, 0, 0, 0, 0, 0, 0, 0]

  // The keyed block cipher, which this model does not look into.
  type Cipher = Block -> Block

  function Zeros(n: nat): (z: Bytes)
    ensures |z| == n && forall i :: 0 <= i < n ==> z[i] == 0
  {
    seq(n, i => 0)
  }

  // crypto_xor
  function Xor(a: Bytes, b: Bytes): (c: Bytes)
    requires |a| == |b|
    ensures |c| == |a| && forall i :: 0 <= i < |a| ==> c[i] == a[i] ^ b[i]
  {
    seq(|a|, i requires 0 <= i < |a| => a[i] ^ b[i])
  }

  lemma XorTwice(a: Bytes, b: Bytes)
    requires |a| == |b|
    ensures Xor(Xor(a, b), b) == a
  {
  }

  lemma XorConcat(a: Bytes, b: Bytes, c: Bytes, d: Bytes)
    requires |a| == |c| && |b| == |d|
    ensures Xor(a + b, c + d) == Xor(a, c) + Xor(b, d)
  {
  }

  lemma XorZero(a: Bytes)
    ensures Xor(Zeros(|a|), a) == a
  {
  }

  // The next multiple of the block size.
  function RoundUp(n: nat): (r: nat)
    ensures n <= r < n + 16 && r % 16 == 0
  {
    (n + 15) / 16 * 16
  }

  lemma SumOfBlocks(a: nat, b: nat)
    requires a % 16 == 0 && b % 16 == 0
    ensures (a + b) % 16 == 0
  {
  }

  // Fill up to a whole number of blocks with zeros.
  function Pad(data: Bytes): (p: Bytes)
    ensures |p| == RoundUp(|data|) && data <= p
    ensures forall i :: |data| <= i < |p| ==> p[i] == 0
  {
    data + Zeros(RoundUp(|data|) - |data|)
  }

  // Padding appends bytes 0, fewer than a block, up to a whole number of blocks.
  lemma PadIsZeros(data: Bytes)
    ensures Pad(data) == data + Zeros(RoundUp(|data|) - |data|)
  {
  }

  // The byte of value n, counting up from 0.
  function ByteOf(n: nat): (b: bv8)
    requires n < 256
    ensures b as int == n
  {
    if n == 0 then 0 else
      var b := ByteOf(n - 1);
      NextByte(b);
      b + 1
  }

  lemma NextByte(b: bv8)
    requires b < 255
    ensures (b + 1) as int == b as int + 1
  {
  }

  // n in `width` bytes, most significant first
  function BigEndian(n: nat, width: nat): (s: Bytes)
    ensures |s| == width
  {
    if width == 0 then [] else BigEndian(n / 256, width - 1) + [ByteOf(n % 256)]
  }

  function FromBigEndian(s: Bytes): nat {
    if s == [] then 0 else 256 * FromBigEndian(s[..|s| - 1]) + s[|s| - 1] as int
  }

  function Pow256(k: nat): (p: nat)
    ensures p > 0
  {
    if k == 0 then 1 else 256 * Pow256(k - 1)
  }

  lemma {:induction false} Pow256Grows(a: nat, b: nat)
    requires a <= b
    ensures Pow256(a) <= Pow256(b)
  {
    if a < b {
      Pow256Grows(a, b - 1);
    }
  }

  // Each byte is the digit of its position, the most significant first.
  lemma {:induction false} BigEndianDigit(n: nat, width: nat, i: nat)
    requires i < width
    ensures BigEndian(n, width)[i] as int == n / Pow256(width - 1 - i) % 256
  {
    if i < width - 1 {
      BigEndianDigit(n / 256, width - 1, i);
      DivideTwice(n, Pow256(width - 2 - i));
    }
  }

  lemma DivideTwice(n: nat, p: nat)
    requires p > 0
    ensures n / 256 / p == n / (256 * p)
  {
    var q, r := n / 256 / p, n / 256 % p;
    assert n / 256 == p * q + r;
    assert n == 256 * (p * q + r) + n % 256;
    assert 256 * (p * q) == (256 * p) * q;
    RemainderIs(n, 256 * p, q, 256 * r + n % 256);
    QuotientsEqual(256 * p, n / (256 * p), n % (256 * p), q, 256 * r + n % 256);
  }

  // The low `width` bytes survive, and nothing else.
  lemma {:induction false} BigEndianValue(n: nat, width: nat)
    ensures FromBigEndian(BigEndian(n, width)) == n % Pow256(width)
  {
    if width > 0 {
      var s := BigEndian(n, width);
      assert s[..|s| - 1] == BigEndian(n / 256, width - 1);
      BigEndianValue(n / 256, width - 1);
      SplitModulus(n, Pow256(width - 1));
    }
  }

  lemma BigEndianReadsBack(n: nat, width: nat)
    requires n < Pow256(width)
    ensures FromBigEndian(BigEndian(n, width)) == n
  {
    BigEndianValue(n, width);
    RemainderIs(n, Pow256(width), 0, n);
  }

  lemma SplitModulus(n: nat, p: nat)
    requires p > 0
    ensures n % (256 * p) == 256 * ((n / 256) % p) + n % 256
  {
    var q, r := n / 256 / p, (n / 256) % p;
    assert n / 256 == p * q + r;
    assert n == 256 * (p * q + r) + n % 256;
    assert 256 * (p * q) == (256 * p) * q;
    RemainderIs(n, 256 * p, q, 256 * r + n % 256);
  }

  lemma RemainderIs(n: nat, d: nat, q: nat, r: nat)
    requires d > 0 && r < d && n == d * q + r
    ensures n % d == r
  {
    QuotientsEqual(d, n / d, n % d, q, r);
  }

  lemma QuotientsEqual(d: nat, q1: nat, r1: nat, q2: nat, r2: nat)
    requires r1 < d && r2 < d && d * q1 + r1 == d * q2 + r2
    ensures q1 == q2 && r1 == r2
  {
    MultiplesApart(d, q1, q2);
    MultiplesApart(d, q2, q1);
  }

  lemma {:induction false} MultiplesApart(d: nat, a: nat, b: nat)
    ensures a < b ==> d * a + d <= d * b
  {
    if a + 1 < b {
      MultiplesApart(d, a, b - 1);
      assert d * b == d * (b - 1) + d;
    }
  }

  // ----- The inverse of the big-endian encoding -----

  lemma SplitByte(high: nat, low: nat)
    requires low < 256
    ensures (256 * high + low) / 256 == high && (256 * high + low) % 256 == low
  {
  }

  lemma SameByte(x: bv8, y: bv8)
    requires x as int == y as int
    ensures x == y
  {
  }

  lemma ByteBack(x: bv8)
    ensures ByteOf(x as int) == x
  {
    SameByte(ByteOf(x as int), x);
  }

  lemma {:induction false} BigEndianBack(s: Bytes, n: nat)
    requires n == FromBigEndian(s)
    ensures BigEndian(n, |s|) == s
  {
    if s != [] {
      var front, last := s[..|s| - 1], s[|s| - 1];
      SplitByte(FromBigEndian(front), last as int);
      BigEndianBack(front, n / 256);
      ByteBack(last);
    }
  }

  lemma Distribute(x: nat, p: nat, y: nat, low: nat)
    ensures 256 * (x * p + y) + low == x * (256 * p) + (256 * y + low)
  {
  }

  lemma {:induction false} FromBigEndianConcat(a: Bytes, b: Bytes)
    ensures FromBigEndian(a + b) == FromBigEndian(a) * Pow256(|b|) + FromBigEndian(b)
  {
    if b == [] {
      assert a + b == a;
    } else {
      var front := b[..|b| - 1];
      assert (a + b)[..|a + b| - 1] == a + front;
      FromBigEndianConcat(a, front);
      Distribute(FromBigEndian(a), Pow256(|front|), FromBigEndian(front), b[|b| - 1] as int);
    }
  }

  lemma {:induction false} FromBigEndianBound(s: Bytes)
    ensures FromBigEndian(s) < Pow256(|s|)
  {
    if s != [] {
      FromBigEndianBound(s[..|s| - 1]);
    }
  }

  // The most significant byte bounds the number from both sides.
  lemma FromBigEndianLeading(s: Bytes, lead: nat)
    requires s != [] && lead == s[0] as int
    ensures Pow256(|s| - 1) * lead <= FromBigEndian(s) < Pow256(|s| - 1) * lead + Pow256(|s| - 1)
  {
    assert s == [s[0]] + s[1..];
    FromBigEndianFirst(s[0], s[1..]);
  }

  lemma FromBigEndianFirst(first: bv8, rest: Bytes)
    ensures FromBigEndian([first] + rest) == Pow256(|rest|) * first as int + FromBigEndian(rest)
    ensures FromBigEndian(rest) < Pow256(|rest|)
  {
    FromBigEndianConcat([first], rest);
    FromBigEndianBound(rest);
    SingleByte(first);
  }

  lemma SingleByte(x: bv8)
    ensures FromBigEndian([x]) == x as int
  {
    assert [x][..0] == [];
  }

  lemma LeadingBetween(a: nat, b: nat, p: nat, v: nat)
    requires p * a <= v < p * a + p + p && p * b <= v < p * b + p
    ensures a <= b <= a + 1
  {
    MultiplesApart(p, b, a);
    MultiplesApart(p, a + 1, b);
    assert p * (a + 1) == p * a + p;
  }

  lemma LeadingSmall(a: nat, p: nat, v: nat)
    requires a <= 7 && v < p * a + p + p
    ensures v < 256 * p
  {
    MultiplesApart(p, a, 8);
  }

  // The first byte changes exactly if the bytes after it overflow.
  lemma CarryLeads(s: Bytes, k: nat, lead: nat)
    requires s != [] && lead == s[0] as int && lead <= 7 && k < Pow256(|s| - 1)
    ensures BigEndian(FromBigEndian(s) + k, |s|)[0] as int ==
      if FromBigEndian(s[1..]) + k < Pow256(|s| - 1) then lead else lead + 1
  {
    var p, v := Pow256(|s| - 1), FromBigEndian(s) + k;
    assert s == [s[0]] + s[1..];
    FromBigEndianFirst(s[0], s[1..]);
    LeadingSmall(lead, p, v);
    BigEndianReadsBack(v, |s|);
    var t := BigEndian(v, |s|);
    FromBigEndianLeading(t, t[0] as int);
    LeadingBetween(lead, t[0] as int, p, v);
    LeadingIs(lead, t[0] as int, p, v);
  }

  lemma LeadingIs(a: nat, b: nat, p: nat, v: nat)
    requires a <= b <= a + 1 && p * b <= v < p * b + p
    ensures v < p * a + p <==> b == a
  {
    assert p * (a + 1) == p * a + p;
  }

  // A sum that overflows although only `j` bytes are added: all bytes above those are 0xff.
  lemma {:induction false} CarryNeedsOnes(s: Bytes, k: nat, j: nat)
    requires j <= |s| && k < Pow256(j) && FromBigEndian(s) + k >= Pow256(|s|)
    ensures forall i :: 0 <= i < |s| - j ==> s[i] == 0xff
  {
    if j < |s| {
      var first, rest := s[0], s[1..];
      assert s == [first] + rest;
      FromBigEndianFirst(first, rest);
      Pow256Grows(j, |rest|);
      FirstIsOnes(first, Pow256(|rest|), FromBigEndian(rest), k);
      CarryNeedsOnes(rest, k, j);
    }
  }

  lemma FirstIsOnes(first: bv8, p: nat, rest: nat, k: nat)
    requires rest < p && k < p && p * (first as int) + rest + k >= 256 * p
    ensures first == 0xff && rest + k >= p
  {
    ByteRange(first);
    if first as int < 255 {
      MultiplesApart(p, first as int, 255);
    }
    SameByte(first, 0xff);
  }

  lemma ByteRange(x: bv8)
    ensures 0 <= x as int <= 255 && (x as int == 255 ==> x == 0xff)
  {
  }
}
