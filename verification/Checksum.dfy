/** netutils.c: the Internet checksum as this machine computes it, and the packets it seals. Words
    are read in memory order, low byte first; an odd last byte is a word by itself. */
module Checksum {
  import opened Common

  type Ushort = x: int | 0 <= x < 0x1_0000

  function At(data: seq<Byte>, j: nat): (n: nat)
    ensures n < 256
  {
    if j < |data| then data[j] else 0
  }

  function Words(data: seq<Byte>): (ws: seq<Ushort>)
    ensures |ws| == (|data| + 1) / 2
    ensures forall i :: 0 <= i < |ws| ==> ws[i] == At(data, 2 * i) + 256 * At(data, 2 * i + 1)
  {
    seq((|data| + 1) / 2, i requires 0 <= i < (|data| + 1) / 2 => (At(data, 2 * i) + 256 * At(data, 2 * i + 1)) as Ushort)
  }

  /** One turn of the loop, in 32-bit arithmetic. */
  function Add(sum: nat, w: nat): (r: nat) { (sum + w) % UINT / 0x1_0000 + (sum + w) % UINT % 0x1_0000 }

  function Folded(ws: seq<Ushort>, start: nat): (sum: nat) {
    if ws == [] then start else Add(Folded(ws[..|ws| - 1], start), ws[|ws| - 1])
  }

  lemma NextWord(ws: seq<Ushort>, p: nat, start: nat)
    requires p < |ws|
    ensures Folded(ws[..p + 1], start) == Add(Folded(ws[..p], start), ws[p])
  {
    assert ws[..p + 1][..p] == ws[..p];
  }

  lemma NoWords(ws: seq<Ushort>, start: nat)
    ensures Folded(ws[..0], start) == start
  {}

  function Result(sum: nat): (r: Ushort) { 0xffff - sum % 0x1_0000 }

  function ChecksumOf(data: seq<Byte>, start: nat): (r: Ushort) { Result(Folded(Words(data), start)) }

  method Checksum(data: seq<Byte>, start: nat) returns (r: Ushort)
    ensures r == ChecksumOf(data, start)
  {
    hide Words, Folded;
    ghost var ws := Words(data);
    NoWords(ws, start);
    var p, length, sum := 0, |data|, start;
    while length > 1
      invariant 0 <= length && 2 * p + length == |data| && p <= |ws|
      invariant sum == Folded(ws[..p], start)
    {
      NextWord(ws, p, start);
      sum := (sum + (data[2 * p] + 256 * data[2 * p + 1])) % UINT;
      sum := sum / 0x1_0000 + sum % 0x1_0000;
      p := p + 1;
      length := length - 2;
    }
    if length > 0 {
      NextWord(ws, p, start);
      sum := (sum + data[2 * p]) % UINT;
      sum := sum / 0x1_0000 + sum % 0x1_0000;
    }
    assert ws[..|ws|] == ws;
    return 0xffff - sum % 0x1_0000;
  }

  // ---------------------------------------------------------------- the sum modulo 65535

  function Sum(ws: seq<Ushort>): (n: nat) {
    if ws == [] then 0 else Sum(ws[..|ws| - 1]) + ws[|ws| - 1]
  }

  /** Folding carries around keeps the value modulo 65535, and 0 only comes from 0. */
  lemma FoldCongruent(s: nat)
    requires s < UINT
    ensures (s / 0x1_0000 + s % 0x1_0000) % 0xffff == s % 0xffff
    ensures s / 0x1_0000 + s % 0x1_0000 == 0 <==> s == 0
  {
    var hi, lo := s / 0x1_0000, s % 0x1_0000;
    assert s == 0xffff * hi + (hi + lo);
    Multiple(hi, hi + lo);
  }

  lemma Multiple(q: nat, m: nat)
    ensures (0xffff * q + m) % 0xffff == m % 0xffff
  {}

  /** What the folded sum can reach: 0x10000 at most, from any start the callers use. */
  lemma AddBound(sum: nat, w: Ushort)
    requires sum <= 6 * 0xffff
    ensures Add(sum, w) <= 0xffff + 6
    ensures sum <= 0x1_0005 ==> Add(sum, w) <= 0x1_0000
    ensures sum <= 0x1_0000 && w == 0 ==> Add(sum, w) <= 0xffff
    ensures sum <= 0xffff ==> Add(sum, w) <= 0xffff
    ensures Add(sum, w) % 0xffff == (sum + w) % 0xffff
    ensures Add(sum, w) == 0 <==> sum + w == 0
  {
    FoldCongruent(sum + w);
  }

  lemma {:induction false} FoldedCongruent(ws: seq<Ushort>, start: nat)
    requires start <= 6 * 0xffff
    ensures Folded(ws, start) <= 6 * 0xffff
    ensures Folded(ws, start) % 0xffff == (start + Sum(ws)) % 0xffff
    ensures Folded(ws, start) == 0 <==> start + Sum(ws) == 0
    ensures |ws| >= 1 ==> Folded(ws, start) <= 0x1_0005
    ensures |ws| >= 2 ==> Folded(ws, start) <= 0x1_0000
  {
    if ws != [] {
      var n := |ws| - 1;
      FoldedCongruent(ws[..n], start);
      AddBound(Folded(ws[..n], start), ws[n]);
      Congruent(Folded(ws[..n], start), start + Sum(ws[..n]), ws[n]);
    }
  }

  lemma Congruent(a: nat, b: nat, w: nat)
    requires a % 0xffff == b % 0xffff
    ensures (a + w) % 0xffff == (b + w) % 0xffff
  {}

  /** The sum after the first word. */
  function First(start: nat, w: Ushort): (n: nat) { (start + w) / 0x1_0000 + (start + w) % 0x1_0000 }

  lemma AddIsFirst(start: nat, w: Ushort)
    requires start <= 6 * 0xffff
    ensures Add(start, w) == First(start, w) <= 0x1_0005
  {
    var t := start + w;
    var hi, lo := t / 0x1_0000, t % 0x1_0000;
    assert t == hi * 0x1_0000 + lo && hi <= 6;
  }

  lemma SecondFold(sum: nat, w: Ushort)
    requires sum <= 0x1_0005
    ensures Add(sum, w) > 0xffff <==> sum + w == 0x1_ffff
  {
    var t := sum + w;
    if t < 0x1_0000 {
      assert t / 0x1_0000 == 0;
    } else if t < 0x2_0000 {
      assert t / 0x1_0000 == 1 && t % 0x1_0000 == t - 0x1_0000;
    } else {
      assert t / 0x1_0000 == 2 && t % 0x1_0000 == t - 0x2_0000;
    }
  }

  /** Exactly when the code's one fold per word leaves something to fold: with no or one word by
      arithmetic; with more, when the first two sum to 0x1ffff after the first fold and every word
      after them is 0xffff. */
  lemma {:induction false} UnfoldedIff(ws: seq<Ushort>, start: nat)
    requires start <= 6 * 0xffff
    ensures Folded(ws, start) > 0xffff <==>
      if ws == [] then start > 0xffff
      else if |ws| == 1 then First(start, ws[0]) > 0xffff
      else First(start, ws[0]) + ws[1] == 0x1_ffff && forall i :: 2 <= i < |ws| ==> ws[i] == 0xffff
  {
    hide Add, First;
    if |ws| == 1 {
      AddIsFirst(start, ws[0]);
      assert ws[..0] == [];
    } else if |ws| == 2 {
      AddIsFirst(start, ws[0]);
      SecondFold(First(start, ws[0]), ws[1]);
      OneWord(ws, start);
    } else if |ws| > 2 {
      var n := |ws| - 1;
      UnfoldedIff(ws[..n], start);
      FoldedCongruent(ws[..n], start);
      AddTop(Folded(ws[..n], start), ws[n]);
    }
  }

  lemma OneWord(ws: seq<Ushort>, start: nat)
    requires |ws| == 2
    ensures Folded(ws, start) == Add(Add(start, ws[0]), ws[1])
  {
    hide Add;
    NoWords(ws[..1], start);
    assert ws[..1][..0] == ws[..0] && Folded(ws[..1], start) == Add(Folded(ws[..1][..0], start), ws[..1][0]);
  }

  lemma AddTop(sum: nat, w: Ushort)
    requires sum <= 0x1_0000
    ensures Add(sum, w) > 0xffff <==> sum > 0xffff && w == 0xffff
  {}

  /** So nothing is left from a start below 0x10000, nor when some word after the first two is 0. */
  lemma FullyFolded(ws: seq<Ushort>, start: nat, z: nat)
    requires start <= 6 * 0xffff && (start <= 0xffff || (2 <= z < |ws| && ws[z] == 0))
    ensures Folded(ws, start) <= 0xffff
  {
    UnfoldedIff(ws, start);
  }

  /** A sum that stays unfolded. */
  lemma NotFullyFolded()
    ensures Folded([0xffff], 0x1_0000) == 0x1_0000
    ensures Folded([0xffff, 0xffff], 0x1_0000) == 0x1_0000
  {
    assert [0xffff as Ushort, 0xffff as Ushort][..1] == [0xffff as Ushort];
  }

  // ---------------------------------------------------------------- sealing a packet

  /** The packet with its checksum field, word k, set. */
  function Sealed(data: seq<Byte>, k: nat, c: Ushort): (r: seq<Byte>)
    requires 2 * k + 1 < |data|
    ensures |r| == |data| && Words(r) == Words(data)[k := c]
  {
    var r := data[2 * k := c % 256][2 * k + 1 := c / 256];
    assert forall i :: 0 <= i < |Words(data)| ==> Words(r)[i] == Words(data)[k := c][i];
    r
  }

  lemma {:induction false} SumUpdate(ws: seq<Ushort>, k: nat, c: Ushort)
    requires k < |ws| && ws[k] == 0
    ensures Sum(ws[k := c]) == Sum(ws) + c
  {
    var n := |ws| - 1;
    if k == n {
      assert ws[k := c][..n] == ws[..n];
    } else {
      assert ws[k := c][..n] == ws[..n][k := c];
      SumUpdate(ws[..n], k, c);
    }
  }

  /** A sealed packet verifies: its checksum, taken with the field in place, is 0. */
  lemma SealVerifies(data: seq<Byte>, k: nat, z: nat, start: nat)
    requires 2 * k + 1 < |data| && Words(data)[k] == 0 && start <= 6 * 0xffff && start + Sum(Words(data)) > 0
    requires start <= 0xffff || (2 <= z < |Words(data)| && Words(data)[z] == 0 && z != k)
    ensures ChecksumOf(Sealed(data, k, ChecksumOf(data, start)), start) == 0
  {
    hide Folded, Sum, Words, Sealed, At;
    var ws, c := Words(data), ChecksumOf(data, start);
    FoldedCongruent(ws, start);
    FullyFolded(ws, start, z);
    SumUpdate(ws, k, c);
    FoldedCongruent(ws[k := c], start);
    FullyFolded(ws[k := c], start, z);
    Complement(Folded(ws, start), start + Sum(ws));
    AllOnes(Folded(ws[k := c], start));
  }

  lemma Complement(f: nat, total: nat)
    requires f <= 0xffff && f % 0xffff == total % 0xffff
    ensures (total + (0xffff - f)) % 0xffff == 0
  {}

  lemma AllOnes(f: nat)
    requires 0 < f <= 0xffff && f % 0xffff == 0
    ensures f == 0xffff
  {}

  // ---------------------------------------------------------------- IP and TCP

  /** The words of the header ip_send builds, in memory order; the checksum is word 5. */
  function IpHeader(tlen: Ushort, id: Ushort, ttl: Byte, protocol: Byte, src: (Ushort, Ushort), dst: (Ushort, Ushort)): (h: seq<Byte>)
    ensures |h| == 20 && h[0] == 0x45 && h[10] == 0 && h[11] == 0
  {
    [0x45, 0] + Bytes2(tlen) + Bytes2(id) + [0x40, 0] + [ttl, protocol] + [0, 0] + Bytes2(src.0) + Bytes2(src.1) + Bytes2(dst.0) + Bytes2(dst.1)
  }

  function Bytes2(w: Ushort): (b: seq<Byte>)
    ensures |b| == 2
  {
    [w % 256, w / 256]
  }

  lemma {:induction false} SumAtLeast(ws: seq<Ushort>, i: nat)
    requires i < |ws|
    ensures Sum(ws) >= ws[i]
  {
    if i < |ws| - 1 {
      SumAtLeast(ws[..|ws| - 1], i);
    }
  }

  /** Every header ip_send seals passes the test of ip_receive. */
  lemma IpVerifies(tlen: Ushort, id: Ushort, ttl: Byte, protocol: Byte, src: (Ushort, Ushort), dst: (Ushort, Ushort))
    ensures var h := IpHeader(tlen, id, ttl, protocol, src, dst);
      ChecksumOf(Sealed(h, 5, ChecksumOf(h, 0)), 0) == 0
  {
    hide IpHeader;
    var h := IpHeader(tlen, id, ttl, protocol, src, dst);
    SumAtLeast(Words(h), 0);
    SealVerifies(h, 5, 0, 0);
  }

  /** The pseudo-header as the code adds it up: halves of the addresses in host order. */
  function PseudoSum(a: (Ushort, Ushort), b: (Ushort, Ushort), size: Ushort): (n: nat)
    ensures 0 < n <= 6 * 0xffff
  {
    a.0 + a.1 + b.0 + b.1 + 0x0600 + size
  }

  /** Every segment tcp_pack seals passes the test of tcp_receive at the other end, where the two
      addresses have changed places; the zero urgent pointer, word 9, does the last fold. */
  lemma TcpVerifies(segment: seq<Byte>, mine: (Ushort, Ushort), yours: (Ushort, Ushort), size: Ushort)
    requires |segment| >= 20 && segment[16..20] == [0, 0, 0, 0]
    ensures ChecksumOf(Sealed(segment, 8, ChecksumOf(segment, PseudoSum(mine, yours, size))), PseudoSum(yours, mine, size)) == 0
  {
    assert segment[16..20][0] == segment[16] && segment[16..20][1] == segment[17] && segment[16..20][2] == segment[18] && segment[16..20][3] == segment[19];
    hide Words;
    SealVerifies(segment, 8, 9, PseudoSum(mine, yours, size));
  }

  // ---------------------------------------------------------------- the pseudo-header of the standard

  /** The low and the high half of an address, in the order in which the network sends the bytes. */
  function NetBytes(a: (Ushort, Ushort)): (b: seq<Byte>)
    ensures |b| == 4
  {
    [a.1 / 256, a.1 % 256, a.0 / 256, a.0 % 256]
  }

  /** Section 3.1 of RFC 793: both addresses, a zero byte, the protocol and the length of the segment. */
  function PseudoHeader(a: (Ushort, Ushort), b: (Ushort, Ushort), size: Ushort): (h: seq<Byte>)
    ensures |h| == 12
  {
    NetBytes(a) + NetBytes(b) + [0, 6] + [size / 256, size % 256]
  }

  lemma SwapBytes(n: Ushort)
    ensures Swap16(n) == n / 256 + 256 * (n % 256)
  {}

  lemma PseudoWords(a: (Ushort, Ushort), b: (Ushort, Ushort), size: Ushort)
    ensures Words(PseudoHeader(a, b, size)) == [Swap16(a.1), Swap16(a.0), Swap16(b.1), Swap16(b.0), 0x0600, Swap16(size)]
  {
    SwapBytes(a.0);
    SwapBytes(a.1);
    SwapBytes(b.0);
    SwapBytes(b.1);
    SwapBytes(size);
    var h := PseudoHeader(a, b, size);
    assert h == [a.1 / 256, a.1 % 256, a.0 / 256, a.0 % 256, b.1 / 256, b.1 % 256, b.0 / 256, b.0 % 256, 0, 6, size / 256, size % 256];
    hide Swap16, PseudoHeader;
    var ws := Words(h);
    hide Words;
    assert ws[0] == Swap16(a.1) && ws[1] == Swap16(a.0) && ws[2] == Swap16(b.1) && ws[3] == Swap16(b.0) && ws[4] == 0x0600 && ws[5] == Swap16(size);
  }

  lemma SumSix(x0: Ushort, x1: Ushort, x2: Ushort, x3: Ushort, x4: Ushort, x5: Ushort)
    ensures Sum([x0, x1, x2, x3, x4, x5]) == x0 + x1 + x2 + x3 + x4 + x5
  {
    SumNext([], x0);
    SumNext([x0], x1);
    SumNext([x0, x1], x2);
    SumNext([x0, x1, x2], x3);
    SumNext([x0, x1, x2, x3], x4);
    SumNext([x0, x1, x2, x3, x4], x5);
    hide Sum;
    assert [] + [x0] == [x0] && [x0] + [x1] == [x0, x1] && [x0, x1] + [x2] == [x0, x1, x2];
    assert [x0, x1, x2] + [x3] == [x0, x1, x2, x3] && [x0, x1, x2, x3] + [x4] == [x0, x1, x2, x3, x4];
    assert [x0, x1, x2, x3, x4] + [x5] == [x0, x1, x2, x3, x4, x5];
    NoSum();
  }

  lemma NoSum()
    ensures Sum([]) == 0
  {}

  lemma SumNext(ws: seq<Ushort>, w: Ushort)
    ensures Sum(ws + [w]) == Sum(ws) + w
  {
    assert (ws + [w])[..|ws|] == ws;
  }

  /** Swapping the bytes of a word multiplies it by 256 modulo 65535. */
  lemma SwapIsTimes(n: Ushort)
    ensures Swap16(n) == 256 * n - 0xffff * (n / 256)
  {
    assert n == n / 256 * 256 + n % 256;
  }

  /** 257 is what 255 lacks to divide 65535. */
  lemma Divides(s: nat, k: int)
    ensures (255 * s - 0xffff * k) % 0xffff == 0 <==> s % 257 == 0
  {
    var q, r := s / 257, s % 257;
    assert 255 * s - 0xffff * k == 0xffff * (q - k) + 255 * r;
    assert 0 <= 255 * r < 0xffff;
    MultipleInt(q - k, 255 * r);
  }

  lemma MultipleInt(q: int, m: nat)
    requires m < 0xffff
    ensures (0xffff * q + m) % 0xffff == m
  {}

  lemma SameResidue(a: nat, b: nat)
    ensures a % 0xffff == b % 0xffff <==> (a - b) % 0xffff == 0
  {
    var x, y := a / 0xffff, b / 0xffff;
    var d := a % 0xffff - b % 0xffff;
    assert a - b == 0xffff * (x - y) + d;
    if d >= 0 {
      MultipleInt(x - y, d);
    } else {
      MultipleInt(x - y - 1, 0xffff + d);
    }
  }

  /** tcp.c adds the halves of the addresses without swapping them, although every other word is
      swapped, so its start agrees with the standard if and only if 257 divides their sum. */
  lemma PseudoCongruentIff(a: (Ushort, Ushort), b: (Ushort, Ushort), size: Ushort)
    ensures Sum(Words(PseudoHeader(a, b, size))) % 0xffff == PseudoSum(a, b, Swap16(size)) % 0xffff
            <==> (a.0 + a.1 + b.0 + b.1) % 257 == 0
    ensures 0 < Sum(Words(PseudoHeader(a, b, size))) <= 6 * 0xffff
  {
    hide Words, Sum, Swap16, PseudoHeader;
    PseudoWords(a, b, size);
    SumSix(Swap16(a.1), Swap16(a.0), Swap16(b.1), Swap16(b.0), 0x0600, Swap16(size));
    SwapIsTimes(a.0);
    SwapIsTimes(a.1);
    SwapIsTimes(b.0);
    SwapIsTimes(b.1);
    SameResidue(Sum(Words(PseudoHeader(a, b, size))), PseudoSum(a, b, Swap16(size)));
    Divides(a.0 + a.1 + b.0 + b.1, a.0 / 256 + a.1 / 256 + b.0 / 256 + b.1 / 256);
  }

  /** So a segment that tcp_pack seals passes the test of the standard if and only if 257 divides the
      sum of the halves of the two addresses. */
  lemma TcpStandardIff(segment: seq<Byte>, mine: (Ushort, Ushort), yours: (Ushort, Ushort), size: Ushort)
    requires |segment| >= 20 && segment[16..20] == [0, 0, 0, 0]
    ensures ChecksumOf(Sealed(segment, 8, ChecksumOf(segment, PseudoSum(mine, yours, Swap16(size)))), Sum(Words(PseudoHeader(mine, yours, size)))) == 0
            <==> (mine.0 + mine.1 + yours.0 + yours.1) % 257 == 0
  {
    assert segment[16..20][0] == segment[16] && segment[16..20][1] == segment[17] && segment[16..20][2] == segment[18] && segment[16..20][3] == segment[19];
    assert Words(segment)[8] == 0 && Words(segment)[9] == 0;
    hide Words, Sum, Folded, Swap16, PseudoHeader, Sealed;
    var start, std := PseudoSum(mine, yours, Swap16(size)), Sum(Words(PseudoHeader(mine, yours, size)));
    PseudoCongruentIff(mine, yours, size);
    OtherStart(segment, 8, 9, start, std);
  }

  /** A sealed packet verified with another start. */
  lemma OtherStart(data: seq<Byte>, k: nat, z: nat, start: nat, other: nat)
    requires 2 * k + 1 < |data| && Words(data)[k] == 0 && 0 < start <= 6 * 0xffff && 0 < other <= 6 * 0xffff
    requires 2 <= z < |Words(data)| && Words(data)[z] == 0 && z != k
    ensures ChecksumOf(Sealed(data, k, ChecksumOf(data, start)), other) == 0 <==> other % 0xffff == start % 0xffff
  {
    hide Folded, Sum, Words, Sealed, At;
    var ws, c := Words(data), ChecksumOf(data, start);
    FoldedCongruent(ws, start);
    FullyFolded(ws, start, z);
    SumUpdate(ws, k, c);
    FoldedCongruent(ws[k := c], other);
    FullyFolded(ws[k := c], other, z);
    Complement(Folded(ws, start), start + Sum(ws));
    Shifted(start + Sum(ws) + c, start, other);
    Zero(Folded(ws[k := c], other));
  }

  lemma Shifted(total: nat, start: nat, other: nat)
    requires total % 0xffff == 0 && total >= start
    ensures (total - start + other) % 0xffff == 0 <==> other % 0xffff == start % 0xffff
  {
    SameResidue(total - start + other, total);
    SameResidue(other, start);
  }

  lemma Zero(f: nat)
    requires 0 < f <= 0xffff
    ensures Result(f) == 0 <==> f % 0xffff == 0
  {}

  // ---------------------------------------------------------------- byte order

  /** 256 to the power i. */
  function Place(i: nat): (p: nat)
    requires i <= 4
    ensures p > 0
  {
    if i == 0 then 1 else if i == 1 then 0x100 else if i == 2 then 0x1_0000 else if i == 3 then 0x100_0000 else UINT
  }

  /** Byte i of n, counted from the low end: (n >> 8 * i) & 0xff. */
  function ByteOf(n: nat, i: nat): (b: Byte)
    requires i < 4
  {
    n / Place(i) % 256
  }

  function Swap16(n: Ushort): (r: Ushort) { ByteOf(n, 0) * 0x100 + ByteOf(n, 1) }

  function Swap32(n: Uint): (r: Uint) { ByteOf(n, 0) * 0x100_0000 + ByteOf(n, 1) * 0x1_0000 + ByteOf(n, 2) * 0x100 + ByteOf(n, 3) }

  /** The bytes moved land on bits that are still 0, so the source's or is a sum. */
  method Htons(n: Ushort) returns (a: Ushort)
    ensures a == Swap16(n) && ByteOf(a, 0) == ByteOf(n, 1) && ByteOf(a, 1) == ByteOf(n, 0)
  {
    var sum := 0;
    var i := 0;
    while i < 2
      invariant 0 <= i <= 2
      invariant sum == (if i > 0 then ByteOf(n, 0) * 0x100 else 0) + (if i > 1 then ByteOf(n, 1) else 0)
    {
      sum := sum + n / Place(i) % 256 * Place(2 - i - 1);
      i := i + 1;
    }
    return sum;
  }

  method Htonl(n: Uint) returns (a: Uint)
    ensures a == Swap32(n) && forall i :: 0 <= i < 4 ==> ByteOf(a, i) == ByteOf(n, 3 - i)
  {
    BytesBack(ByteOf(n, 3), ByteOf(n, 2), ByteOf(n, 1), ByteOf(n, 0));
    var sum := 0;
    var i := 0;
    while i < 4
      invariant 0 <= i <= 4
      invariant sum == (if i > 0 then ByteOf(n, 0) * 0x100_0000 else 0) + (if i > 1 then ByteOf(n, 1) * 0x1_0000 else 0)
                     + (if i > 2 then ByteOf(n, 2) * 0x100 else 0) + (if i > 3 then ByteOf(n, 3) else 0)
    {
      sum := sum + n / Place(i) % 256 * Place(4 - i - 1);
      i := i + 1;
    }
    return sum;
  }

  /** Both conversions undo themselves. */
  lemma SwapTwice(n: Ushort, m: Uint)
    ensures Swap16(Swap16(n)) == n && Swap32(Swap32(m)) == m
  {
    hide ByteOf, Swap16;
    SwapTwice16(n);
    BytesBack(ByteOf(m, 3), ByteOf(m, 2), ByteOf(m, 1), ByteOf(m, 0));
    FromBytes(m);
  }

  lemma SwapTwice16(n: Ushort)
    ensures Swap16(Swap16(n)) == n
  {}

  lemma FromBytes(m: Uint)
    ensures m == ByteOf(m, 3) * 0x100_0000 + ByteOf(m, 2) * 0x1_0000 + ByteOf(m, 1) * 0x100 + ByteOf(m, 0)
  {
    var a := m / 256;
    var b := a / 256;
    var c := b / 256;
    assert b == m / 0x1_0000 && c == m / 0x100_0000 && c < 256;
    assert m == a * 256 + ByteOf(m, 0) && a == b * 256 + ByteOf(m, 1) && b == c * 256 + ByteOf(m, 2) && c == ByteOf(m, 3);
    hide ByteOf;
  }

  lemma BytesBack(a: Byte, b: Byte, c: Byte, d: Byte)
    ensures var n := d * 0x100_0000 + c * 0x1_0000 + b * 0x100 + a;
      ByteOf(n, 0) == a && ByteOf(n, 1) == b && ByteOf(n, 2) == c && ByteOf(n, 3) == d
  {
    var n := d * 0x100_0000 + c * 0x1_0000 + b * 0x100 + a;
    LowByte(d * 0x1_0000 + c * 0x100 + b, a);
    LowByte(d * 0x100 + c, b);
    LowByte(d, c);
    TwoSteps(n);
  }

  lemma LowByte(hi: nat, lo: Byte)
    ensures (hi * 0x100 + lo) / 0x100 == hi && (hi * 0x100 + lo) % 0x100 == lo
  {}

  lemma TwoSteps(n: nat)
    ensures n / 0x1_0000 == n / 0x100 / 0x100 && n / 0x100_0000 == n / 0x100 / 0x100 / 0x100
  {}
}
