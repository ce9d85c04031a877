/**
 The FACS hardware signature: one zeroed buffer holds the PCI ids, the firmware
 version, the settings and the memory map, each part 64-bit aligned. The memory
 map is then filtered and shrunk on top of itself, and the buffer up to the end
 of the shrunk map goes to the CRC.
 */
module FacsHardwareSignature {
  import opened Bytes
  import opened Efi

  // Memory types, section 7.2 of UEFI 2.8.
  const RESERVED_MEMORY := 0
  const RUNTIME_SERVICES_CODE := 5
  const RUNTIME_SERVICES_DATA := 6
  const ACPI_RECLAIM_MEMORY := 9
  const ACPI_MEMORY_NVS := 10

  predicate IsSelectedType(memoryType: int): (r: bool)
    ensures r <==> memoryType == 0 || memoryType == 5 || memoryType == 6 || memoryType == 9 || memoryType == 10
  {
    || memoryType == RUNTIME_SERVICES_CODE
    || memoryType == RUNTIME_SERVICES_DATA
    || memoryType == RESERVED_MEMORY
    || memoryType == ACPI_RECLAIM_MEMORY
    || memoryType == ACPI_MEMORY_NVS
  }

  // ---------------------------------------------------------------- layout

  function RoundEven(words: nat): (r: nat)
    ensures r % 2 == 0 && words <= r <= words + 1
  {
    words + words % 2
  }

  /** Bytes, rounded up to whole 32-bit words. */
  function WordsFor(bytes: nat): (r: nat)
    ensures bytes <= 4 * r <= bytes + 3
  {
    (bytes + 3) / 4
  }

  /** Where the parts start and where the buffer ends, in 32-bit words. */
  datatype Layout = Layout(part2: nat, part3: nat, part4: nat, total: nat)

  function LayoutOf(pciCount: nat, settingsSize: nat, mapSize: nat): Layout {
    var part2 := RoundEven(pciCount) + 2;
    var part3 := RoundEven(part2 + 1);
    var part4 := RoundEven(part3 + WordsFor(settingsSize));
    Layout(part2, part3, part4, RoundEven(part4 + WordsFor(mapSize)))
  }

  /**
   Every part starts on a 64-bit boundary, holds what is stored there, and ends before
   the next one, which starts at the first boundary that leaves room.
   */
  lemma LayoutIsDisjoint(pciCount: nat, settingsSize: nat, mapSize: nat)
    ensures var l := LayoutOf(pciCount, settingsSize, mapSize);
            && l.part2 % 2 == 0 && l.part3 % 2 == 0 && l.part4 % 2 == 0 && l.total % 2 == 0
            && pciCount + 2 <= l.part2 <= pciCount + 3 && l.part3 == l.part2 + 2
            && 4 * l.part3 + settingsSize <= 4 * l.part4 < 4 * l.part3 + settingsSize + 8
            && 4 * l.part4 + mapSize <= 4 * l.total < 4 * l.part4 + mapSize + 8
  {
    VersionPart(pciCount);
    hide RoundEven, WordsFor;
  }

  /** The version word and its gap take two words. */
  lemma VersionPart(pciCount: nat)
    ensures (RoundEven(pciCount) + 2) % 2 == 0
    ensures RoundEven(RoundEven(pciCount) + 2 + 1) == RoundEven(pciCount) + 4
  {
    var even := RoundEven(pciCount) + 2;
    hide RoundEven;
    assert even % 2 == 0;
    assert (even + 1) % 2 == 1;
  }

  const UINTN_LIMIT: nat := 0x1_0000_0000_0000_0000

  function Wrap(x: nat): (r: nat)
    ensures r < UINTN_LIMIT
    ensures x < UINTN_LIMIT ==> r == x
  {
    if x < UINTN_LIMIT then x else x % UINTN_LIMIT
  }

  function RoundEvenWrapped(words: nat): nat {
    Wrap(words + words % 2)
  }

  function WordsForWrapped(bytes: nat): nat {
    Wrap(bytes + 3) / 4
  }

  /** The same computation in UINTN arithmetic, wrapping at every step. */
  function WrappedLayout(pciCount: nat, settingsSize: nat, mapSize: nat): Layout {
    var part2 := Wrap(RoundEvenWrapped(pciCount) + 2);
    var part3 := RoundEvenWrapped(Wrap(part2 + 1));
    var part4 := RoundEvenWrapped(Wrap(part3 + WordsForWrapped(settingsSize)));
    Layout(part2, part3, part4, RoundEvenWrapped(Wrap(part4 + WordsForWrapped(mapSize))))
  }

  /** The size in bytes that is asked of the pool. */
  function WrappedAllocation(pciCount: nat, settingsSize: nat, mapSize: nat): nat {
    Wrap(4 * WrappedLayout(pciCount, settingsSize, mapSize).total)
  }

  /** The UINTN arithmetic allocates the needed bytes exactly when that many bytes are a UINTN value. */
  lemma WrapsExactlyWhenTooLarge(pciCount: nat, settingsSize: nat, mapSize: nat)
    ensures var need := 4 * LayoutOf(pciCount, settingsSize, mapSize).total;
            WrappedAllocation(pciCount, settingsSize, mapSize) == need <==> need < UINTN_LIMIT
  {
    if 4 * LayoutOf(pciCount, settingsSize, mapSize).total < UINTN_LIMIT {
      NoWrap(pciCount, settingsSize, mapSize);
    }
    hide LayoutOf, WrappedLayout, RoundEvenWrapped, WordsForWrapped, Wrap;
  }

  /** Below that size no step of the computation wraps. */
  lemma NoWrap(pciCount: nat, settingsSize: nat, mapSize: nat)
    requires 4 * LayoutOf(pciCount, settingsSize, mapSize).total < UINTN_LIMIT
    ensures WrappedLayout(pciCount, settingsSize, mapSize) == LayoutOf(pciCount, settingsSize, mapSize)
  {
    hide RoundEven, WordsFor, RoundEvenWrapped, WordsForWrapped, Wrap;
    var l := LayoutOf(pciCount, settingsSize, mapSize);
    PartsAscend(pciCount, settingsSize, mapSize);
    FirstPartsFit(pciCount, l.part2, l.part3);
    NoWrapStep(l.part3, settingsSize);
    NoWrapStep(l.part4, mapSize);
  }

  lemma PartsAscend(pciCount: nat, settingsSize: nat, mapSize: nat)
    ensures var l := LayoutOf(pciCount, settingsSize, mapSize);
            l.part3 == l.part2 + 2 && 4 <= l.part3 <= l.part4 <= l.total
  {
    LayoutIsDisjoint(pciCount, settingsSize, mapSize);
    hide RoundEven, WordsFor;
  }

  lemma FirstPartsFit(pciCount: nat, part2: nat, part3: nat)
    requires part2 == RoundEven(pciCount) + 2 && part3 == part2 + 2 && 4 * part3 < UINTN_LIMIT
    ensures Wrap(RoundEvenWrapped(pciCount) + 2) == part2
    ensures RoundEvenWrapped(Wrap(part2 + 1)) == part3
  {
  }

  lemma NoWrapStep(start: nat, bytes: nat)
    requires start >= 4 && 4 * RoundEven(start + WordsFor(bytes)) < UINTN_LIMIT
    ensures RoundEvenWrapped(Wrap(start + WordsForWrapped(bytes))) == RoundEven(start + WordsFor(bytes))
  {
    assert bytes + 3 < UINTN_LIMIT;
  }

  // ---------------------------------------------------- what is serialised

  datatype Pair = Pair(physicalStart: U64, numberOfPages: U64)

  function PairBytes(p: Pair): (s: seq<Byte>)
    ensures |s| == 16
  {
    LE(p.physicalStart, 8) + LE(p.numberOfPages, 8)
  }

  function PairsBytes(ps: seq<Pair>): (s: seq<Byte>)
    ensures |s| == 16 * |ps|
  {
    if ps == [] then [] else PairsBytes(ps[..|ps| - 1]) + PairBytes(ps[|ps| - 1])
  }

  function WordsBytes(ws: seq<U32>): (s: seq<Byte>)
    ensures |s| == 4 * |ws|
  {
    if ws == [] then [] else WordsBytes(ws[..|ws| - 1]) + LE(ws[|ws| - 1], 4)
  }

  /** All that the signature depends on. */
  datatype Inputs = Inputs(
    pciIds: seq<U32>, xDsdt: U64, version: U32, settings: seq<Byte>, pairs: seq<Pair>)

  /** Parts 1 to 3, alignment gaps included. */
  function Header(inp: Inputs, settingsSize: nat): (s: seq<Byte>)
    requires |inp.settings| <= settingsSize
    ensures |s| == 4 * LayoutOf(|inp.pciIds|, settingsSize, 0).part4
  {
    LayoutIsDisjoint(|inp.pciIds|, settingsSize, 0);
    var l := LayoutOf(|inp.pciIds|, settingsSize, 0);
    Part1(inp) + LE(inp.version, 4) + Zeros(4)
    + inp.settings + Zeros(4 * (l.part4 - l.part3) - |inp.settings|)
  }

  function Part1(inp: Inputs): (s: seq<Byte>)
    ensures |s| == 4 * LayoutOf(|inp.pciIds|, 0, 0).part2
  {
    WordsBytes(inp.pciIds) + LE(inp.xDsdt, 8) + Zeros(4 * (|inp.pciIds| % 2))
  }

  /** The bytes handed to the CRC. */
  function SignatureBytes(inp: Inputs, settingsSize: nat): seq<Byte>
    requires |inp.settings| <= settingsSize
  {
    Header(inp, settingsSize) + PairsBytes(inp.pairs)
  }

  // ----------------------------------------------- reading the bytes back

  function U32At(s: seq<Byte>, off: nat): U32
    requires off + 4 <= |s|
  {
    ToFromLE(s[off..off + 4]);
    Widths();
    FromLE(s[off..off + 4])
  }

  function U64At(s: seq<Byte>, off: nat): U64
    requires off + 8 <= |s|
  {
    ToFromLE(s[off..off + 8]);
    Widths();
    FromLE(s[off..off + 8])
  }

  /** The bytes stand least significant first. */
  lemma BytesOfU32(s: seq<Byte>, off: nat)
    requires off + 4 <= |s|
    ensures U32At(s, off) as int
      == s[off] as int + 0x100 * s[off + 1] as int + 0x1_0000 * s[off + 2] as int + 0x100_0000 * s[off + 3] as int
  {
    var w := s[off..off + 4];
    assert FromLE(w) == w[0] + 256 * FromLE(w[1..]);
    assert FromLE(w[1..]) == w[1] + 256 * FromLE(w[2..]);
    assert FromLE(w[2..]) == w[2] + 256 * FromLE(w[3..]);
    assert FromLE(w[3..]) == w[3];
  }

  lemma BytesOfU64(s: seq<Byte>, off: nat)
    requires off + 8 <= |s|
    ensures U64At(s, off) == U32At(s, off) + 0x1_0000_0000 * U32At(s, off + 4)
  {
    assert s[off..off + 8] == s[off..off + 4] + s[off + 4..off + 8];
    FromLEConcat(s[off..off + 4], s[off + 4..off + 8]);
    Widths();
    hide FromLE;
  }

  function ParseWords(s: seq<Byte>): seq<U32> {
    if |s| < 4 then [] else ParseWords(s[..|s| - 4]) + [U32At(s, |s| - 4)]
  }

  function ParsePairs(s: seq<Byte>): seq<Pair> {
    if |s| < 16 then []
    else ParsePairs(s[..|s| - 16]) + [Pair(U64At(s, |s| - 16), U64At(s, |s| - 8))]
  }

  function ParseSignature(s: seq<Byte>, pciCount: nat, settingsLength: nat, settingsSize: nat): Inputs
    requires settingsLength <= settingsSize
    requires 4 * LayoutOf(pciCount, settingsSize, 0).part4 <= |s|
  {
    LayoutIsDisjoint(pciCount, settingsSize, 0);
    var l := LayoutOf(pciCount, settingsSize, 0);
    Inputs(
      ParseWords(s[..4 * pciCount]),
      U64At(s, 4 * pciCount),
      U32At(s, 4 * l.part2),
      s[4 * l.part3..4 * l.part3 + settingsLength],
      ParsePairs(s[4 * l.part4..]))
  }

  lemma U32AtLE(s: seq<Byte>, off: nat, v: U32)
    requires off + 4 <= |s| && s[off..off + 4] == LE(v, 4)
    ensures U32At(s, off) == v
  {
    Widths();
    FromToLE(v, 4);
  }

  lemma U64AtLE(s: seq<Byte>, off: nat, v: U64)
    requires off + 8 <= |s| && s[off..off + 8] == LE(v, 8)
    ensures U64At(s, off) == v
  {
    Widths();
    FromToLE(v, 8);
  }

  lemma {:induction false} WordsRoundTrip(ws: seq<U32>)
    ensures ParseWords(WordsBytes(ws)) == ws
  {
    hide LE, U32At;
    if ws == [] {
    } else {
      WordsRoundTrip(ws[..|ws| - 1]);
      LastWord(WordsBytes(ws[..|ws| - 1]), ws[|ws| - 1]);
    }
  }

  lemma LastWord(init: seq<Byte>, w: U32)
    ensures var s := init + LE(w, 4); s[..|s| - 4] == init && U32At(s, |s| - 4) == w
  {
    var s := init + LE(w, 4);
    U32AtLE(s, |s| - 4, w);
  }

  lemma LastPair(init: seq<Byte>, p: Pair)
    ensures var s := init + PairBytes(p);
            && s[..|s| - 16] == init
            && Pair(U64At(s, |s| - 16), U64At(s, |s| - 8)) == p
  {
    var s := init + PairBytes(p);
    U64AtLE(s, |s| - 16, p.physicalStart);
    U64AtLE(s, |s| - 8, p.numberOfPages);
  }

  lemma {:induction false} PairsRoundTrip(ps: seq<Pair>)
    ensures ParsePairs(PairsBytes(ps)) == ps
  {
    hide PairBytes, U64At;
    if ps == [] {
    } else {
      PairsRoundTrip(ps[..|ps| - 1]);
      LastPair(PairsBytes(ps[..|ps| - 1]), ps[|ps| - 1]);
    }
  }

  lemma Cut(a: seq<Byte>, b: seq<Byte>, c: seq<Byte>, d: seq<Byte>, e: seq<Byte>, s: seq<Byte>)
    requires s == a + b + c + d + e
    ensures s[..|a|] == a
    ensures s[|a|..|a| + |b|] == b
    ensures s[|a| + |b| + |c|..|a| + |b| + |c| + |d|] == d
    ensures s[|a| + |b| + |c| + |d|..] == e
  {
  }

  /** The six consecutive pieces of the CRC'd bytes, gaps attached to the piece they follow. */
  lemma Pieces(inp: Inputs, settingsSize: nat)
    requires |inp.settings| <= settingsSize
    ensures var n := |inp.pciIds|;
            var l := LayoutOf(n, settingsSize, 0);
            var s := SignatureBytes(inp, settingsSize);
            && 4 * n + 8 <= 4 * l.part2 && 4 * l.part2 + 8 == 4 * l.part3
            && 4 * l.part3 + |inp.settings| <= 4 * l.part4 <= |s|
            && s[..4 * n] == WordsBytes(inp.pciIds)
            && s[4 * n..4 * n + 8] == LE(inp.xDsdt, 8)
            && s[4 * l.part2..4 * l.part2 + 4] == LE(inp.version, 4)
            && s[4 * l.part3..4 * l.part3 + |inp.settings|] == inp.settings
            && s[4 * l.part4..] == PairsBytes(inp.pairs)
  {
    hide LE, PairsBytes, WordsBytes, RoundEven, WordsFor;
    var n := |inp.pciIds|;
    var l := LayoutOf(n, settingsSize, 0);
    LayoutIsDisjoint(n, settingsSize, 0);
    var tail := inp.settings + Zeros(4 * (l.part4 - l.part3) - |inp.settings|);
    Cut(Part1(inp), LE(inp.version, 4), Zeros(4), tail, PairsBytes(inp.pairs), SignatureBytes(inp, settingsSize));
  }

  /** With the PCI count and the settings sizes known, the CRC'd bytes determine every input. */
  lemma SignatureRoundTrip(inp: Inputs, settingsSize: nat)
    requires |inp.settings| <= settingsSize
    ensures var s := SignatureBytes(inp, settingsSize);
            && 4 * LayoutOf(|inp.pciIds|, settingsSize, 0).part4 <= |s|
            && ParseSignature(s, |inp.pciIds|, |inp.settings|, settingsSize) == inp
  {
    hide LE, FromLE, SignatureBytes, U32At, U64At, ParseWords, ParsePairs, LayoutOf;
    var n := |inp.pciIds|;
    var l := LayoutOf(n, settingsSize, 0);
    var s := SignatureBytes(inp, settingsSize);
    Pieces(inp, settingsSize);
    WordsRoundTrip(inp.pciIds);
    U64AtLE(s, 4 * n, inp.xDsdt);
    U32AtLE(s, 4 * l.part2, inp.version);
    PairsRoundTrip(inp.pairs);
  }

  lemma SignatureIsInjective(a: Inputs, b: Inputs, settingsSize: nat)
    requires |a.pciIds| == |b.pciIds| && |a.settings| == |b.settings| <= settingsSize
    requires SignatureBytes(a, settingsSize) == SignatureBytes(b, settingsSize)
    ensures a == b
  {
    SignatureRoundTrip(a, settingsSize);
    SignatureRoundTrip(b, settingsSize);
  }

  /** The PCI count is not part of the bytes: one device and two devices can yield the same signature input. */
  lemma PciCountIsNotRecoverable(a: U32, b: U32, c: U32, version: U32, settings: seq<Byte>, pairs: seq<Pair>)
    ensures var one := Inputs([a], b + 0x1_0000_0000 * c, version, settings, pairs);
            var two := Inputs([a, b], c, version, settings, pairs);
            && one != two
            && SignatureBytes(one, |settings|) == SignatureBytes(two, |settings|)
  {
    hide LE, WordsBytes, Part1, PairsBytes, LayoutOf;
    var one := Inputs([a], b + 0x1_0000_0000 * c, version, settings, pairs);
    var two := Inputs([a, b], c, version, settings, pairs);
    OneDevicePart1(one, a, b, c);
    TwoDevicesPart1(two, a, b, c);
    assert RoundEven(1) == 2 == RoundEven(2);
    SameLayout(1, 2, |settings|);
    assert Header(one, |settings|) == Header(two, |settings|);
  }

  /** Inputs with n devices and a settings variable of size u, and others with m and v, have the same bytes. */
  ghost predicate ShareBytes(n: nat, u: nat, m: nat, v: nat) {
    exists a: Inputs, b: Inputs {:trigger SignatureBytes(a, u), SignatureBytes(b, v)} ::
      && |a.pciIds| == n && |a.settings| <= u
      && |b.pciIds| == m && |b.settings| <= v
      && SignatureBytes(a, u) == SignatureBytes(b, v)
  }

  /**
   Exactly which shapes of input can be confused: those whose parts 1 to 3 have
   lengths that differ by whole 16-byte pairs, since nothing separates part 4 from
   the parts before it.
   */
  lemma SharedBytesExactly(n: nat, u: nat, m: nat, v: nat)
    ensures ShareBytes(n, u, m, v) <==> LayoutOf(n, u, 0).part4 % 4 == LayoutOf(m, v, 0).part4 % 4
  {
    SharedLengths(n, u, m, v);
    hide ShareBytes, LayoutOf;
    var j, k := LayoutOf(n, u, 0).part4, LayoutOf(m, v, 0).part4;
    if j % 4 == k % 4 {
      var x, y := FillUp(j, k);
      ZeroInputsShare(n, u, m, v, x, y);
    }
  }

  lemma FillUp(j: nat, k: nat) returns (x: nat, y: nat)
    requires j % 4 == k % 4
    ensures 4 * j + 16 * x == 4 * k + 16 * y
  {
    x, y := if j < k then (k - j) / 4 else 0, if j < k then 0 else (j - k) / 4;
  }

  lemma SharedLengths(n: nat, u: nat, m: nat, v: nat)
    ensures ShareBytes(n, u, m, v) ==> LayoutOf(n, u, 0).part4 % 4 == LayoutOf(m, v, 0).part4 % 4
  {
    hide LayoutOf, SignatureBytes;
    if a: Inputs, b: Inputs {:trigger SignatureBytes(a, u), SignatureBytes(b, v)} :|
      && |a.pciIds| == n && |a.settings| <= u
      && |b.pciIds| == m && |b.settings| <= v
      && SignatureBytes(a, u) == SignatureBytes(b, v)
    {
      SignatureLength(a, u);
      SignatureLength(b, v);
      var j, k := LayoutOf(n, u, 0).part4, LayoutOf(m, v, 0).part4;
      assert j + 4 * |a.pairs| == k + 4 * |b.pairs|;
    }
  }

  lemma ZeroInputsShare(n: nat, u: nat, m: nat, v: nat, x: nat, y: nat)
    requires 4 * LayoutOf(n, u, 0).part4 + 16 * x == 4 * LayoutOf(m, v, 0).part4 + 16 * y
    ensures ShareBytes(n, u, m, v)
  {
    ZeroSignature(n, u, x);
    ZeroSignature(m, v, y);
    hide LayoutOf, SignatureBytes;
    assert SignatureBytes(ZeroInputs(n, x), u) == SignatureBytes(ZeroInputs(m, y), v);
  }

  /** With one settings size, two PCI counts can be confused exactly when their even round-ups agree modulo 4. */
  lemma PciCountsConfusedExactly(n: nat, m: nat, settingsSize: nat)
    ensures ShareBytes(n, settingsSize, m, settingsSize) <==> RoundEven(n) % 4 == RoundEven(m) % 4
  {
    hide ShareBytes, LayoutOf, RoundEven, WordsFor;
    SharedBytesExactly(n, settingsSize, m, settingsSize);
    HeaderWords(n, settingsSize);
    HeaderWords(m, settingsSize);
    SameShift(RoundEven(n), RoundEven(m), 4 + RoundEven(WordsFor(settingsSize)));
  }

  lemma SameShift(a: nat, b: nat, c: nat)
    ensures (a + c) % 4 == (b + c) % 4 <==> a % 4 == b % 4
  {
  }

  lemma HeaderWords(n: nat, settingsSize: nat)
    ensures LayoutOf(n, settingsSize, 0).part4 == RoundEven(n) + 4 + RoundEven(WordsFor(settingsSize))
  {
    VersionPart(n);
    hide WordsFor;
    EvenSum(RoundEven(n) + 4, WordsFor(settingsSize));
    hide RoundEven;
  }

  lemma EvenSum(even: nat, words: nat)
    requires even % 2 == 0
    ensures RoundEven(even + words) == even + RoundEven(words)
  {
  }

  lemma SignatureLength(inp: Inputs, settingsSize: nat)
    requires |inp.settings| <= settingsSize
    ensures |SignatureBytes(inp, settingsSize)|
      == 4 * LayoutOf(|inp.pciIds|, settingsSize, 0).part4 + 16 * |inp.pairs|
  {
    hide LayoutOf, PairsBytes;
    var l := |Header(inp, settingsSize)| + |PairsBytes(inp.pairs)|;
    hide Header;
  }

  function ZeroInputs(n: nat, pairs: nat): Inputs {
    Inputs(seq(n, i => 0), 0, 0, [], seq(pairs, i => Pair(0, 0)))
  }

  lemma ZeroSignature(n: nat, settingsSize: nat, pairs: nat)
    ensures SignatureBytes(ZeroInputs(n, pairs), settingsSize)
      == Zeros(4 * LayoutOf(n, settingsSize, 0).part4 + 16 * pairs)
  {
    ZeroHeader(n, settingsSize, pairs);
    ZeroPairs(pairs);
    ZerosJoin(4 * LayoutOf(n, settingsSize, 0).part4, 16 * pairs);
    hide Header, LayoutOf, PairsBytes, Zeros;
  }

  lemma ZeroHeader(n: nat, settingsSize: nat, pairs: nat)
    ensures Header(ZeroInputs(n, pairs), settingsSize) == Zeros(4 * LayoutOf(n, settingsSize, 0).part4)
  {
    var inp := ZeroInputs(n, pairs);
    var l := LayoutOf(n, settingsSize, 0);
    ZeroPart1(n, pairs);
    ZeroWord();
    LayoutIsDisjoint(n, settingsSize, 0);
    hide LE, LayoutOf, Part1, Zeros;
    ZerosJoin(|Part1(inp)|, 4);
    ZerosJoin(|Part1(inp)| + 4, 4);
    ZerosJoin(|Part1(inp)| + 8, 4 * (l.part4 - l.part3));
    assert Zeros(|Part1(inp)| + 8) + [] == Zeros(|Part1(inp)| + 8);
  }

  lemma ZeroPart1(n: nat, pairs: nat)
    ensures var part := Part1(ZeroInputs(n, pairs)); part == Zeros(|part|)
  {
    ZeroWords(n);
    ZeroLong();
    hide LE, WordsBytes, Zeros;
    ZerosJoin(4 * n, 8);
    ZerosJoin(4 * n + 8, 4 * (n % 2));
  }

  lemma ZerosJoin(m: nat, n: nat)
    ensures Zeros(m) + Zeros(n) == Zeros(m + n)
  {
  }

  lemma ZeroLong()
    ensures LE(0, 8) == Zeros(8)
  {
    TwoHalves(0);
    ZeroWord();
    hide LE;
  }

  lemma {:induction false} ZeroWords(n: nat)
    ensures WordsBytes(seq(n, i => 0)) == Zeros(4 * n)
  {
    hide LE;
    if n == 0 {
    } else {
      ZeroWords(n - 1);
      ZeroWord();
      assert seq(n, i => 0)[..n - 1] == seq(n - 1, i => 0);
    }
  }

  lemma {:induction false} ZeroPairs(n: nat)
    ensures PairsBytes(seq(n, i => Pair(0, 0))) == Zeros(16 * n)
  {
    if n == 0 {
    } else {
      ZeroPairs(n - 1);
      ZeroLong();
      hide LE;
      assert seq(n, i => Pair(0, 0))[..n - 1] == seq(n - 1, i => Pair(0, 0));
    }
  }

  lemma SameLayout(n: nat, m: nat, settingsSize: nat)
    requires RoundEven(n) == RoundEven(m)
    ensures LayoutOf(n, settingsSize, 0) == LayoutOf(m, settingsSize, 0)
  {
    hide RoundEven, WordsFor;
  }

  lemma OneDevicePart1(inp: Inputs, a: U32, b: U32, c: U32)
    requires inp.pciIds == [a] && inp.xDsdt == b + 0x1_0000_0000 * c
    ensures Part1(inp) == LE(a, 4) + LE(b, 4) + LE(c, 4) + Zeros(4)
  {
    hide LE;
    TwoHalves(inp.xDsdt);
    assert inp.xDsdt % 0x1_0000_0000 == b && inp.xDsdt / 0x1_0000_0000 == c;
    assert WordsBytes([a]) == LE(a, 4) by { assert [a][..0] == []; }
  }

  lemma TwoDevicesPart1(inp: Inputs, a: U32, b: U32, c: U32)
    requires inp.pciIds == [a, b] && inp.xDsdt == c
    ensures Part1(inp) == LE(a, 4) + LE(b, 4) + LE(c, 4) + Zeros(4)
  {
    hide LE;
    TwoHalves(c);
    assert c % 0x1_0000_0000 == c && c / 0x1_0000_0000 == 0;
    ZeroWord();
    assert WordsBytes([a, b]) == LE(a, 4) + LE(b, 4) by {
      assert [a, b][..1] == [a] && [a][..0] == [];
    }
  }

  lemma ZeroWord()
    ensures LE(0, 4) == Zeros(4)
  {
    assert LE(0, 1) == [0];
    assert LE(0, 2) == [0] + LE(0, 1);
    assert LE(0, 3) == [0] + LE(0, 2);
  }

  // -------------------------------------------------------- the memory map

  /** Where the read cursor stands after i descriptors. */
  function Offset(i: nat, stride: nat): nat {
    if i == 0 then 0 else Offset(i - 1, stride) + stride
  }

  lemma {:induction false} OffsetIsProduct(i: nat, stride: nat)
    ensures Offset(i, stride) == i * stride
  {
    if i == 0 {
    } else {
      OffsetIsProduct(i - 1, stride);
      assert i * stride == (i - 1) * stride + stride;
    }
  }

  lemma {:induction false} OffsetMonotone(i: nat, j: nat, stride: nat)
    requires i <= j
    ensures Offset(i, stride) <= Offset(j, stride)
  {
    if i == j {
    } else {
      OffsetMonotone(i, j - 1, stride);
    }
  }

  /** The reads of the loop over count descriptors stay inside m. */
  predicate ReadsFit(m: seq<Byte>, count: nat, stride: nat) {
    count == 0 || Offset(count - 1, stride) + 32 <= |m|
  }

  lemma ReadsFitBefore(m: seq<Byte>, i: nat, count: nat, stride: nat)
    requires i <= count && ReadsFit(m, count, stride)
    ensures ReadsFit(m, i, stride)
  {
    if i > 0 { OffsetMonotone(i - 1, count - 1, stride); }
  }

  /** The selected pairs of the first count descriptors of m, in order. */
  function SelectedPairs(m: seq<Byte>, count: nat, stride: nat): (r: seq<Pair>)
    requires ReadsFit(m, count, stride)
    ensures |r| <= count
  {
    if count == 0 then []
    else
      ReadsFitBefore(m, count - 1, count, stride);
      var off := Offset(count - 1, stride);
      var before := SelectedPairs(m, count - 1, stride);
      if IsSelectedType(U32At(m, off))
      then before + [Pair(U64At(m, off + 8), U64At(m, off + 24))]
      else before
  }

  /** A memory descriptor, section 7.2 of UEFI 2.8; rest holds Attribute and whatever the stride adds. */
  datatype Descriptor = Descriptor(
    memoryType: U32, physicalStart: U64, virtualStart: U64, numberOfPages: U64, rest: seq<Byte>)

  function DescriptorBytes(d: Descriptor): (s: seq<Byte>)
    ensures |s| == 32 + |d.rest|
  {
    LE(d.memoryType, 4) + Zeros(4) + LE(d.physicalStart, 8) + LE(d.virtualStart, 8)
    + LE(d.numberOfPages, 8) + d.rest
  }

  function MapBytes(ds: seq<Descriptor>): seq<Byte> {
    if ds == [] then [] else MapBytes(ds[..|ds| - 1]) + DescriptorBytes(ds[|ds| - 1])
  }

  ghost predicate UniformStride(ds: seq<Descriptor>, stride: nat) {
    forall k :: 0 <= k < |ds| ==> |DescriptorBytes(ds[k])| == stride
  }

  /** What the design asks for: filter the map by type, keep the two fields. */
  function Filtered(ds: seq<Descriptor>): seq<Pair> {
    if ds == [] then []
    else
      var d := ds[|ds| - 1];
      Filtered(ds[..|ds| - 1])
      + if IsSelectedType(d.memoryType) then [Pair(d.physicalStart, d.numberOfPages)] else []
  }

  lemma {:induction false} MapLength(ds: seq<Descriptor>, stride: nat)
    requires UniformStride(ds, stride)
    ensures |MapBytes(ds)| == Offset(|ds|, stride)
  {
    if ds == [] {
    } else {
      MapLength(ds[..|ds| - 1], stride);
    }
  }

  lemma DescriptorFields(front: seq<Byte>, d: Descriptor, slack: seq<Byte>, m: seq<Byte>)
    requires m == front + (DescriptorBytes(d) + slack)
    ensures U32At(m, |front|) == d.memoryType
    ensures U64At(m, |front| + 8) == d.physicalStart
    ensures U64At(m, |front| + 24) == d.numberOfPages
  {
    var off := |front|;
    assert m[off..off + 4] == LE(d.memoryType, 4);
    assert m[off + 8..off + 16] == LE(d.physicalStart, 8);
    assert m[off + 24..off + 32] == LE(d.numberOfPages, 8);
    U32AtLE(m, off, d.memoryType);
    U64AtLE(m, off + 8, d.physicalStart);
    U64AtLE(m, off + 24, d.numberOfPages);
  }

  /** The byte-level selection of an encoded map is the type filter of its descriptors; slack bytes do not matter. */
  lemma {:induction false} SelectionIsFilter(ds: seq<Descriptor>, stride: nat, slack: seq<Byte>)
    requires UniformStride(ds, stride)
    ensures ReadsFit(MapBytes(ds) + slack, |ds|, stride)
    ensures SelectedPairs(MapBytes(ds) + slack, |ds|, stride) == Filtered(ds)
  {
    hide DescriptorBytes, U32At, U64At;
    MapLength(ds, stride);
    if ds == [] {
    } else {
      var n := |ds| - 1;
      var d, m := ds[n], MapBytes(ds) + slack;
      MapLength(ds[..n], stride);
      SelectionIsFilter(ds[..n], stride, DescriptorBytes(d) + slack);
      assert m == MapBytes(ds[..n]) + (DescriptorBytes(d) + slack);
      DescriptorFields(MapBytes(ds[..n]), d, slack, m);
    }
  }

  /**
   The guard admits strides from 16 on. The descriptors of a map that fills its
   bytes are read inside the map exactly when the stride covers the fields read;
   below that the last descriptor is read past the end.
   */
  lemma GuardIsTooWeak(m: seq<Byte>, stride: nat)
    requires stride >= 16 && |m| >= stride && |m| % stride == 0
    ensures ReadsFit(m, |m| / stride, stride) <==> stride >= 32
  {
    var count := |m| / stride;
    OffsetIsProduct(count, stride);
    assert count >= 1;
  }

  lemma WideStrideFits(m: seq<Byte>, slack: nat, stride: nat)
    requires stride >= 32
    ensures ReadsFit(m + Zeros(slack), |m| / stride, stride)
  {
    OffsetIsProduct(|m| / stride, stride);
    FloorTimes(|m|, stride);
  }

  lemma FloorTimes(x: nat, d: nat)
    requires d > 0
    ensures x / d * d <= x
  {
    assert x == x / d * d + x % d;
  }

  /** One output entry: both fields stored behind the write cursor. */
  method StorePair(buf: array<Byte>, at: nat, p: Pair)
    requires at + 16 <= buf.Length
    modifies buf
    ensures buf[at..at + 16] == PairBytes(p)
    ensures forall j :: 0 <= j < buf.Length && !(at <= j < at + 16) ==> buf[j] == old(buf[j])
  {
    CopyInto(buf, at, LE(p.physicalStart, 8));
    CopyInto(buf, at + 8, LE(p.numberOfPages, 8));
  }

  lemma Snoc(ps: seq<Pair>, p: Pair)
    ensures PairsBytes(ps + [p]) == PairsBytes(ps) + PairBytes(p)
  {
    assert (ps + [p])[..|ps|] == ps;
  }

  /**
   The buffer s after the descriptors before off: bytes in front of the base are
   those of the original buffer s0, the pairs kept stand behind the base, and
   everything from off on is still the original map.
   */
  ghost predicate Compacted(s: seq<Byte>, s0: seq<Byte>, base: nat, off: nat, mapState: nat, pairs: seq<Pair>) {
    && |s| == |s0|
    && base <= mapState <= base + off && mapState <= |s|
    && mapState == base + 16 * |pairs|
    && s[..base] == s0[..base]
    && s[base..mapState] == PairsBytes(pairs)
    && forall j :: base + off <= j < |s| ==> s[j] == s0[j]
  }

  /** The fields of the descriptor at entry are still those of the original map. */
  lemma FieldsIntact(s: seq<Byte>, s0: seq<Byte>, base: nat, off: nat, mapState: nat, pairs: seq<Pair>)
    requires Compacted(s, s0, base, off, mapState, pairs) && base + off + 32 <= |s0|
    ensures U32At(s, base + off) == U32At(s0[base..], off)
    ensures U64At(s, base + off + 8) == U64At(s0[base..], off + 8)
    ensures U64At(s, base + off + 24) == U64At(s0[base..], off + 24)
  {
    var m := s0[base..];
    assert s[base + off..base + off + 4] == m[off..off + 4];
    assert s[base + off + 8..base + off + 16] == m[off + 8..off + 16];
    assert s[base + off + 24..base + off + 32] == m[off + 24..off + 32];
  }

  lemma OnePairMore(
    s: seq<Byte>, t: seq<Byte>, s0: seq<Byte>, base: nat, off: nat, mapState: nat,
    pairs: seq<Pair>, p: Pair, stride: nat)
    requires Compacted(s, s0, base, off, mapState, pairs) && mapState + 16 <= |s| == |t| && stride >= 16
    requires t[mapState..mapState + 16] == PairBytes(p)
    requires forall j :: 0 <= j < |s| && !(mapState <= j < mapState + 16) ==> t[j] == s[j]
    ensures Compacted(t, s0, base, off + stride, mapState + 16, pairs + [p])
  {
    hide PairsBytes, PairBytes;
    Snoc(pairs, p);
    assert t[base..mapState + 16] == t[base..mapState] + t[mapState..mapState + 16];
    assert t[base..mapState] == s[base..mapState];
    assert t[..base] == s[..base];
  }

  /** The body of the loop, for the descriptor at off in the original map. */
  method CompactStep(
    buf: array<Byte>, base: nat, entry: nat, stride: nat, mapState: nat, ghost s0: seq<Byte>, ghost pairs: seq<Pair>)
    returns (mapState': nat, ghost pairs': seq<Pair>)
    requires base <= entry && entry + 32 <= |s0| && stride >= 16
    requires Compacted(buf[..], s0, base, entry - base, mapState, pairs)
    modifies buf
    ensures var m, off := s0[base..], entry - base;
            pairs' == pairs + if IsSelectedType(U32At(m, off))
                              then [Pair(U64At(m, off + 8), U64At(m, off + 24))] else []
    ensures Compacted(buf[..], s0, base, entry + stride - base, mapState', pairs')
  {
    hide U32At, U64At, PairBytes, PairsBytes;
    FieldsIntact(buf[..], s0, base, entry - base, mapState, pairs);
    mapState', pairs' := mapState, pairs;
    if IsSelectedType(U32At(buf[..], entry)) {
      var pages := U64At(buf[..], entry + 24);
      var p := Pair(U64At(buf[..], entry + 8), pages);
      ghost var before := buf[..];
      StorePair(buf, mapState, p);
      OnePairMore(before, buf[..], s0, base, entry - base, mapState, pairs, p, stride);
      mapState', pairs' := mapState + 16, pairs + [p];
    }
  }

  lemma NothingSelected(m: seq<Byte>, count: nat, stride: nat)
    requires ReadsFit(m, count, stride)
    ensures Offset(0, stride) == 0 && ReadsFit(m, 0, stride) && SelectedPairs(m, 0, stride) == []
  {
  }

  lemma NextSelected(m: seq<Byte>, i: nat, count: nat, stride: nat)
    requires i < count && ReadsFit(m, count, stride)
    ensures ReadsFit(m, i, stride) && ReadsFit(m, i + 1, stride)
    ensures Offset(i + 1, stride) == Offset(i, stride) + stride && Offset(i, stride) + 32 <= |m|
    ensures var off := Offset(i, stride);
            SelectedPairs(m, i + 1, stride)
            == SelectedPairs(m, i, stride)
               + if IsSelectedType(U32At(m, off)) then [Pair(U64At(m, off + 8), U64At(m, off + 24))] else []
  {
    hide U32At, U64At;
    ReadsFitBefore(m, i, count, stride);
    ReadsFitBefore(m, i + 1, count, stride);
  }

  /**
   The in-place loop: a read cursor steps over descriptors, a write cursor lays
   16-byte pairs over them. For every stride from 16 on, no store reaches a byte
   still to be read.
   */
  method CompactMap(buf: array<Byte>, base: nat, count: nat, stride: nat) returns (mapState: nat)
    requires base <= buf.Length && stride >= 16
    requires ReadsFit(buf[base..], count, stride)
    modifies buf
    ensures var pairs := SelectedPairs(old(buf[base..]), count, stride);
            && mapState == base + 16 * |pairs| <= buf.Length
            && buf[..base] == old(buf[..base])
            && buf[base..mapState] == PairsBytes(pairs)
    ensures forall j :: base + Offset(count, stride) <= j < buf.Length ==> buf[j] == old(buf[j])
  {
    ghost var s0, m, pairs: seq<Pair> := buf[..], buf[base..], [];
    assert m == s0[base..];
    assert Compacted(s0, s0, base, 0, base, []);
    NothingSelected(m, count, stride);
    hide U32At, U64At, PairsBytes, Compacted, SelectedPairs, ReadsFit, Offset;
    mapState := base;
    var entry := base;
    for i := 0 to count
      invariant entry == base + Offset(i, stride)
      invariant ReadsFit(m, i, stride) && pairs == SelectedPairs(m, i, stride)
      invariant Compacted(buf[..], s0, base, Offset(i, stride), mapState, pairs)
    {
      NextSelected(m, i, count, stride);
      mapState, pairs := CompactStep(buf, base, entry, stride, mapState, s0, pairs);
      entry := entry + stride;
    }
    CompactedMeans(buf[..], s0, base, Offset(count, stride), mapState, pairs);
  }

  lemma CompactedMeans(s: seq<Byte>, s0: seq<Byte>, base: nat, off: nat, mapState: nat, pairs: seq<Pair>)
    requires Compacted(s, s0, base, off, mapState, pairs)
    ensures |s| == |s0| && base <= mapState <= |s| && mapState == base + 16 * |pairs|
    ensures s[..base] == s0[..base] && s[base..mapState] == PairsBytes(pairs)
    ensures forall j :: base + off <= j < |s| ==> s[j] == s0[j]
  {
  }

  // ----------------------------------------------------- the whole update

  datatype Reply<+T> = Ok(value: T) | Failed(status: Status)

  /** The reply to a size query: EFI_BUFFER_TOO_SMALL and the size, or anything else. */
  datatype Probe = TooSmall(size: nat) | Unexpected(status: Status)

  datatype Fadt = Fadt(firmwareCtrl: U32, xDsdt: U64)

  datatype MapReply = MapReply(bytes: seq<Byte>, descriptorSize: nat)

  function DescriptorCount(m: MapReply): nat {
    if m.descriptorSize >= 16 then |m.bytes| / m.descriptorSize else 0
  }

  /** Part 4 of the buffer once the second GetMemoryMap has filled it. */
  function MapPart(m: MapReply, room: nat): seq<Byte>
    requires |m.bytes| <= room
  {
    m.bytes + Zeros(room - |m.bytes|)
  }

  predicate MapFits(reply: Option<MapReply>, room: nat) {
    reply.Some? ==>
      && |reply.value.bytes| <= room
      && ReadsFit(MapPart(reply.value, room), DescriptorCount(reply.value), reply.value.descriptorSize)
  }

  /** The pairs kept; none when the second GetMemoryMap fails or reports a descriptor size under 16. */
  function MapPairs(reply: Option<MapReply>, room: nat): seq<Pair>
    requires MapFits(reply, room)
  {
    if reply.None? then []
    else SelectedPairs(MapPart(reply.value, room), DescriptorCount(reply.value), reply.value.descriptorSize)
  }

  /** Whatever the room behind the map, a reply of whole descriptors keeps exactly the filtered pairs. */
  lemma KeptPairsAreTheFilter(ds: seq<Descriptor>, stride: nat, room: nat)
    requires UniformStride(ds, stride) && stride >= 32 && |MapBytes(ds)| <= room
    ensures var reply := Some(MapReply(MapBytes(ds), stride));
            MapFits(reply, room) && MapPairs(reply, room) == Filtered(ds)
  {
    hide DescriptorBytes, SelectedPairs;
    MapLength(ds, stride);
    OffsetIsProduct(|ds|, stride);
    WholeDescriptors(|ds|, stride);
    SelectionIsFilter(ds, stride, Zeros(room - |MapBytes(ds)|));
  }

  lemma WholeDescriptors(n: nat, stride: nat)
    requires stride > 0
    ensures n * stride / stride == n
  {
    var x := n * stride;
    var q, r := x / stride, x % stride;
    assert x == q * stride + r;
    NoMultipleBelow(n - q, stride, r);
  }

  lemma NoMultipleBelow(k: int, d: nat, r: nat)
    requires k * d == r < d
    ensures k == 0
  {
    MultipleAtLeast(k, d);
  }

  lemma MultipleAtLeast(k: int, d: nat)
    ensures k >= 1 ==> k * d >= d
  {
    assert k >= 1 ==> (k - 1) * d >= 0;
  }

  /** What the firmware services answer during one call. */
  datatype Platform = Platform(
    algorithmSupported: bool,
    fadt: Reply<Fadt>,
    pci: Reply<seq<Option<U32>>>,
    settingsProbe: Probe,
    mapProbe: Probe,
    poolAvailable: bool,
    version: U32,
    settings: Reply<seq<Byte>>,
    memoryMap: Option<MapReply>)
  {
    /** The early exit taken, if any. */
    function EarlyExit(): (exit: Option<Status>)
      ensures exit.None? <==>
        && algorithmSupported && poolAvailable && fadt.Ok? && fadt.value.firmwareCtrl != 0 && pci.Ok?
        && settingsProbe.TooSmall? && mapProbe.TooSmall? && settings.Ok?
    {
      if !algorithmSupported then Some(Unsupported)
      else if fadt.Failed? then Some(fadt.status)
      else if fadt.value.firmwareCtrl == 0 then Some(BadBufferSize)
      else if pci.Failed? then Some(pci.status)
      else if settingsProbe.Unexpected? then Some(settingsProbe.status)
      else if mapProbe.Unexpected? then Some(mapProbe.status)
      else if !poolAvailable then Some(OutOfResources)
      else if settings.Failed? then Some(settings.status)
      else None
    }

    predicate FacsFound() {
      algorithmSupported && fadt.Ok? && fadt.value.firmwareCtrl != 0
    }

    function BufferLayout(): (l: Layout)
      requires EarlyExit().None?
    {
      LayoutOf(|pci.value|, settingsProbe.size, mapProbe.size)
    }

    function MapRoom(): nat
      requires EarlyExit().None?
    {
      LayoutIsDisjoint(|pci.value|, settingsProbe.size, mapProbe.size);
      4 * (BufferLayout().total - BufferLayout().part4)
    }

    /**
     The parts fit the address space, the services return no more than the size
     they are given, and the fields read lie inside part 4.
     */
    predicate Honest() {
      EarlyExit().None? ==>
        && 4 * BufferLayout().total < UINTN_LIMIT
        && |settings.value| <= settingsProbe.size
        && (memoryMap.Some? ==> |memoryMap.value.bytes| <= mapProbe.size)
        && MapFits(memoryMap, MapRoom())
    }

    function CrcInputs(): Inputs
      requires EarlyExit().None? && Honest()
    {
      Inputs(
        PciIds(pci.value),
        fadt.value.xDsdt,
        version,
        settings.value,
        MapPairs(memoryMap, MapRoom()))
    }
  }

  /** A device whose id cannot be read counts as id 0. */
  function PciIds(pci: seq<Option<U32>>): (r: seq<U32>)
    ensures |r| == |pci|
    ensures forall i :: 0 <= i < |pci| ==> r[i] == match pci[i] case Some(id) => id case None => 0
  {
    seq(|pci|, i requires 0 <= i < |pci| => if pci[i].Some? then pci[i].value else 0)
  }

  // ------------------------------------------- what the CRC gets to see

  lemma {:induction false} WordAt(ws: seq<U32>, i: nat)
    requires i < |ws|
    ensures WordsBytes(ws)[4 * i..4 * i + 4] == LE(ws[i], 4)
  {
    hide LE;
    if i == |ws| - 1 {
    } else {
      WordAt(ws[..|ws| - 1], i);
      assert WordsBytes(ws)[4 * i..4 * i + 4] == WordsBytes(ws[..|ws| - 1])[4 * i..4 * i + 4];
    }
  }

  lemma {:induction false} PairAt(ps: seq<Pair>, i: nat)
    requires i < |ps|
    ensures PairsBytes(ps)[16 * i..16 * i + 16] == PairBytes(ps[i])
  {
    hide PairBytes;
    if i == |ps| - 1 {
    } else {
      PairAt(ps[..|ps| - 1], i);
      assert PairsBytes(ps)[16 * i..16 * i + 16] == PairsBytes(ps[..|ps| - 1])[16 * i..16 * i + 16];
    }
  }

  lemma SubSlice(s: seq<Byte>, part: seq<Byte>, from: nat, a: nat, b: nat)
    requires a <= b <= |part| && from + |part| <= |s| && s[from..from + |part|] == part
    ensures s[from + a..from + b] == part[a..b]
  {
    var w := s[from..from + |part|];
    assert forall k :: a <= k < b ==> w[k] == s[from + k];
    assert w[a..b] == part[a..b];
  }

  lemma SignatureWords(inp: Inputs, settingsSize: nat, i: nat)
    requires |inp.settings| <= settingsSize && i < |inp.pciIds|
    ensures var s := SignatureBytes(inp, settingsSize); 4 * i + 4 <= |s| && U32At(s, 4 * i) == inp.pciIds[i]
  {
    hide LE, SignatureBytes, WordsBytes, U32At, LayoutOf;
    var s := SignatureBytes(inp, settingsSize);
    Pieces(inp, settingsSize);
    WordAt(inp.pciIds, i);
    SubSlice(s, WordsBytes(inp.pciIds), 0, 4 * i, 4 * i + 4);
    U32AtLE(s, 4 * i, inp.pciIds[i]);
  }

  lemma SignatureFields(inp: Inputs, settingsSize: nat)
    requires |inp.settings| <= settingsSize
    ensures var s, n, l := SignatureBytes(inp, settingsSize), |inp.pciIds|, LayoutOf(|inp.pciIds|, settingsSize, 0);
            && 4 * n + 8 <= 4 * l.part2 && 4 * l.part2 + 4 <= 4 * l.part3
            && 4 * l.part3 + |inp.settings| <= 4 * l.part4 <= |s|
            && U64At(s, 4 * n) == inp.xDsdt
            && U32At(s, 4 * l.part2) == inp.version
            && s[4 * l.part3..4 * l.part3 + |inp.settings|] == inp.settings
  {
    hide LE, SignatureBytes, U32At, U64At, LayoutOf, WordsBytes, PairsBytes;
    var s, n := SignatureBytes(inp, settingsSize), |inp.pciIds|;
    Pieces(inp, settingsSize);
    U64AtLE(s, 4 * n, inp.xDsdt);
    U32AtLE(s, 4 * LayoutOf(n, settingsSize, 0).part2, inp.version);
  }

  lemma SignaturePairs(inp: Inputs, settingsSize: nat, j: nat)
    requires |inp.settings| <= settingsSize && j < |inp.pairs|
    ensures var s, at := SignatureBytes(inp, settingsSize), 4 * LayoutOf(|inp.pciIds|, settingsSize, 0).part4 + 16 * j;
            && at + 16 <= |s|
            && U64At(s, at) == inp.pairs[j].physicalStart
            && U64At(s, at + 8) == inp.pairs[j].numberOfPages
  {
    hide LE, SignatureBytes, U64At, LayoutOf, WordsBytes, PairsBytes, PairBytes;
    var s, base := SignatureBytes(inp, settingsSize), 4 * LayoutOf(|inp.pciIds|, settingsSize, 0).part4;
    Pieces(inp, settingsSize);
    PairAt(inp.pairs, j);
    assert |s| == base + 16 * |inp.pairs| by { assert |s[base..]| == |PairsBytes(inp.pairs)|; }
    SubSlice(s, PairsBytes(inp.pairs), base, 16 * j, 16 * j + 16);
    PairFields(s, base + 16 * j, inp.pairs[j]);
  }

  /** Word i of the bytes is the id of device i, zero when it cannot be read. */
  lemma CrcSeesPciIds(p: Platform, i: nat)
    requires p.EarlyExit().None? && p.Honest() && i < |p.pci.value|
    ensures var bytes := SignatureBytes(p.CrcInputs(), p.settingsProbe.size);
            && 4 * i + 4 <= |bytes|
            && (p.pci.value[i].Some? ==> U32At(bytes, 4 * i) == p.pci.value[i].value)
            && (p.pci.value[i].None? ==> U32At(bytes, 4 * i) == 0)
  {
    hide SignatureBytes, U32At, LayoutOf, MapPairs, MapFits;
    SignatureWords(p.CrcInputs(), p.settingsProbe.size, i);
  }

  /** Behind them stand XDsdt, the firmware version and the settings, each at its index. */
  lemma CrcSeesTheRest(p: Platform)
    requires p.EarlyExit().None? && p.Honest()
    ensures var bytes, n, l := SignatureBytes(p.CrcInputs(), p.settingsProbe.size), |p.pci.value|, p.BufferLayout();
            && 4 * n + 8 <= 4 * l.part2 && 4 * l.part2 + 4 <= 4 * l.part3
            && 4 * l.part3 + |p.settings.value| <= 4 * l.part4 <= |bytes|
            && U64At(bytes, 4 * n) == p.fadt.value.xDsdt
            && U32At(bytes, 4 * l.part2) == p.version
            && bytes[4 * l.part3..4 * l.part3 + |p.settings.value|] == p.settings.value
  {
    hide SignatureBytes, U32At, U64At, LayoutOf, MapPairs, MapFits;
    SignatureFields(p.CrcInputs(), p.settingsProbe.size);
    SamePartStarts(|p.pci.value|, p.settingsProbe.size, p.mapProbe.size);
  }

  lemma SamePartStarts(n: nat, settingsSize: nat, mapSize: nat)
    ensures var k, l := LayoutOf(n, settingsSize, 0), LayoutOf(n, settingsSize, mapSize);
            k.part2 == l.part2 && k.part3 == l.part3 && k.part4 == l.part4
  {
    hide RoundEven, WordsFor;
  }

  /**
   The bytes end with the pairs kept, start before page count, eight bytes each;
   without a usable map there are none.
   */
  lemma CrcSeesPairs(p: Platform, j: nat)
    requires p.EarlyExit().None? && p.Honest()
    ensures var bytes, at := SignatureBytes(p.CrcInputs(), p.settingsProbe.size), 4 * p.BufferLayout().part4 + 16 * j;
            var pairs := p.CrcInputs().pairs;
            && |bytes| == 4 * p.BufferLayout().part4 + 16 * |pairs|
            && (p.memoryMap.None? || p.memoryMap.value.descriptorSize < 16 ==> pairs == [])
            && (j < |pairs| ==>
                  && at + 16 <= |bytes|
                  && U64At(bytes, at) == pairs[j].physicalStart && U64At(bytes, at + 8) == pairs[j].numberOfPages)
  {
    NoMapNoPairs(p.memoryMap, p.MapRoom());
    hide SignatureBytes, U64At, LayoutOf, MapPairs, MapFits;
    var inp, size := p.CrcInputs(), p.settingsProbe.size;
    SignatureLength(inp, size);
    SamePartStarts(|p.pci.value|, size, p.mapProbe.size);
    if j < |inp.pairs| { SignaturePairs(inp, size, j); }
  }

  lemma PairFields(s: seq<Byte>, off: nat, p: Pair)
    requires off + 16 <= |s| && s[off..off + 16] == PairBytes(p)
    ensures U64At(s, off) == p.physicalStart && U64At(s, off + 8) == p.numberOfPages
  {
    hide LE, U64At;
    SubSlice(s, PairBytes(p), off, 0, 8);
    SubSlice(s, PairBytes(p), off, 8, 16);
    U64AtLE(s, off, p.physicalStart);
    U64AtLE(s, off + 8, p.numberOfPages);
  }

  lemma NoMapNoPairs(reply: Option<MapReply>, room: nat)
    requires MapFits(reply, room)
    ensures reply.None? || reply.value.descriptorSize < 16 ==> MapPairs(reply, room) == []
  {
  }

  /** A change in one PCI id, a device that cannot be read counting as zero, always changes the bytes. */
  lemma DifferentIdsDiffer(p: Platform, q: Platform, i: nat)
    requires p.EarlyExit().None? && p.Honest() && q.EarlyExit().None? && q.Honest()
    requires i < |p.pci.value| && i < |q.pci.value|
    requires match (p.pci.value[i], q.pci.value[i])
             case (Some(v), Some(w)) => v != w
             case (Some(v), None) => v != 0
             case (None, Some(w)) => w != 0
             case (None, None) => false
    ensures SignatureBytes(p.CrcInputs(), p.settingsProbe.size) != SignatureBytes(q.CrcInputs(), q.settingsProbe.size)
  {
    CrcSeesPciIds(p, i);
    CrcSeesPciIds(q, i);
  }

  /** A store right behind the filled front of a zeroed buffer. */
  method StoreNext(buf: array<Byte>, ghost front: seq<Byte>, off: nat, data: seq<Byte>)
    requires off == |front| && off + |data| <= buf.Length
    requires buf[..] == front + Zeros(buf.Length - off)
    modifies buf
    ensures buf[..] == front + data + Zeros(buf.Length - off - |data|)
  {
    CopyInto(buf, off, data);
  }

  /** Zeros left behind the front can be counted as part of it. */
  lemma Skip(front: seq<Byte>, gap: nat, zeros: nat)
    requires gap <= zeros
    ensures front + Zeros(zeros) == front + Zeros(gap) + Zeros(zeros - gap)
  {
  }

  lemma WordsSnoc(ids: seq<U32>, i: nat)
    requires i < |ids|
    ensures WordsBytes(ids[..i + 1]) == WordsBytes(ids[..i]) + LE(ids[i], 4)
  {
    assert ids[..i + 1][..i] == ids[..i];
  }

  /** Part 1: one word per device, skipped (left zero) when the device cannot be read. */
  method FillPci(buf: array<Byte>, pci: seq<Option<U32>>) returns (i: nat)
    requires 4 * |pci| <= buf.Length && buf[..] == Zeros(buf.Length)
    modifies buf
    ensures i == |pci|
    ensures buf[..] == WordsBytes(PciIds(pci)) + Zeros(buf.Length - 4 * |pci|)
  {
    hide LE, WordsBytes;
    i := 0;
    ghost var ids := PciIds(pci);
    assert WordsBytes(ids[..0]) == [];
    while i < |pci|
      invariant 0 <= i <= |pci|
      invariant buf[..] == WordsBytes(ids[..i]) + Zeros(buf.Length - 4 * i)
    {
      WordsSnoc(ids, i);
      if pci[i].Some? {
        StoreNext(buf, WordsBytes(ids[..i]), 4 * i, LE(pci[i].value, 4));
      } else {
        ZeroWord();
        Skip(WordsBytes(ids[..i]), 4, buf.Length - 4 * i);
      }
      i := i + 1;
    }
    assert ids[..|pci|] == ids;
  }

  /** Step 7: PCI ids and XDsdt, then the alignment gap. */
  method FillPart1(buf: array<Byte>, part2: nat, pci: seq<Option<U32>>, xDsdt: U64, ghost inp: Inputs)
    requires inp.pciIds == PciIds(pci) && inp.xDsdt == xDsdt
    requires part2 == RoundEven(|pci|) + 2 && 4 * part2 <= buf.Length && buf[..] == Zeros(buf.Length)
    modifies buf
    ensures buf[..] == Part1(inp) + Zeros(buf.Length - 4 * part2)
  {
    hide LE, WordsBytes, PciIds;
    ghost var gap := 4 * part2 - 4 * |pci| - 8;
    assert gap == 4 * (|pci| % 2);
    hide LayoutOf, RoundEven;
    var i := FillPci(buf, pci);
    ghost var front := WordsBytes(PciIds(pci));
    var lo, hi := LE(xDsdt % 0x1_0000_0000, 4), LE(xDsdt / 0x1_0000_0000, 4);
    StoreNext(buf, front, 4 * i, lo);
    StoreNext(buf, front + lo, 4 * i + 4, hi);
    // The overrun exit would be taken here.
    assert i + 2 <= part2;
    TwoHalves(xDsdt);
    front := front + lo + hi;
    assert front == WordsBytes(PciIds(pci)) + LE(xDsdt, 8);
    Skip(front, gap, buf.Length - 4 * i - 8);
  }

  /** Steps 7 to 9: PCI ids, XDsdt, version and settings, every alignment gap left zero. */
  method FillHeader(buf: array<Byte>, l: Layout, settingsSize: nat,
                    pci: seq<Option<U32>>, xDsdt: U64, version: U32, settings: seq<Byte>, ghost inp: Inputs)
    requires inp == Inputs(PciIds(pci), xDsdt, version, settings, inp.pairs)
    requires l.part2 == RoundEven(|pci|) + 2 && l.part3 == l.part2 + 2
    requires l.part4 == LayoutOf(|pci|, settingsSize, 0).part4 <= l.total
    requires |settings| <= settingsSize
    requires buf.Length == 4 * l.total && buf[..] == Zeros(buf.Length)
    modifies buf
    ensures buf[..] == Header(inp, settingsSize) + Zeros(buf.Length - 4 * l.part4)
  {
    hide LE, PciIds, Part1;
    LayoutIsDisjoint(|pci|, settingsSize, 0);
    FillPart1(buf, l.part2, pci, xDsdt, inp);
    hide LayoutOf, RoundEven, WordsFor;
    ghost var front := Part1(inp);
    StoreNext(buf, front, 4 * l.part2, LE(version, 4));
    Skip(front + LE(version, 4), 4, buf.Length - 4 * l.part2 - 4);
    front := front + LE(version, 4) + Zeros(4);
    StoreNext(buf, front, 4 * l.part3, settings);
    Skip(front + settings, 4 * (l.part4 - l.part3) - |settings|, buf.Length - 4 * l.part3 - |settings|);
  }

  /** Step 10: the memory map is read into part 4 and shrunk there. */
  method FillMap(buf: array<Byte>, base: nat, reply: Option<MapReply>) returns (mapState: nat)
    requires base <= buf.Length && buf[base..] == Zeros(buf.Length - base)
    requires MapFits(reply, buf.Length - base)
    modifies buf
    ensures base <= mapState <= buf.Length
    ensures buf[..base] == old(buf[..base])
    ensures buf[base..mapState] == PairsBytes(MapPairs(reply, buf.Length - base))
  {
    mapState := base;
    if reply.Some? {
      var m := reply.value;
      CopyInto(buf, base, m.bytes);
      assert buf[base..] == MapPart(m, buf.Length - base);
      if m.descriptorSize >= 16 {
        mapState := CompactMap(buf, base, |m.bytes| / m.descriptorSize, m.descriptorSize);
      }
    }
  }

  /** Steps 2 to 5, in UINTN arithmetic. */
  method ComputeLayout(pciCount: nat, settingsSize: nat, mapSize: nat) returns (l: Layout)
    ensures l == WrappedLayout(pciCount, settingsSize, mapSize)
    ensures 4 * LayoutOf(pciCount, settingsSize, mapSize).total < UINTN_LIMIT
      ==> l == LayoutOf(pciCount, settingsSize, mapSize)
  {
    hide Wrap, LayoutOf, RoundEvenWrapped, WordsForWrapped;
    var bufferCount := RoundEvenWrapped(pciCount);
    bufferCount := Wrap(bufferCount + 2);
    var indexPart2 := bufferCount;
    bufferCount := Wrap(bufferCount + 1);
    bufferCount := RoundEvenWrapped(bufferCount);
    var indexPart3 := bufferCount;
    bufferCount := Wrap(bufferCount + WordsForWrapped(settingsSize));
    bufferCount := RoundEvenWrapped(bufferCount);
    var indexPart4 := bufferCount;
    bufferCount := Wrap(bufferCount + WordsForWrapped(mapSize));
    bufferCount := RoundEvenWrapped(bufferCount);
    l := Layout(indexPart2, indexPart3, indexPart4, bufferCount);
    if 4 * LayoutOf(pciCount, settingsSize, mapSize).total < UINTN_LIMIT { NoWrap(pciCount, settingsSize, mapSize); }
  }

  class Facs {
    var hardwareSignature: U32
  }

  /**
   The signature becomes the CRC of exactly the serialised inputs, or stays as it
   was when a service fails. The buffer overrun exit is never taken.
   */
  method UpdateFacsHardwareSignature(facs: Facs, p: Platform, crc32: seq<Byte> -> Reply<U32>) returns (status: Status)
    requires p.Honest()
    modifies facs
    ensures !p.algorithmSupported ==> status == Unsupported
    ensures p.algorithmSupported && p.fadt.Failed? ==> status == p.fadt.status
    ensures p.algorithmSupported && p.fadt.Ok? && p.fadt.value.firmwareCtrl == 0 ==> status == BadBufferSize
    ensures p.FacsFound() && p.pci.Failed? ==> status == p.pci.status
    ensures p.FacsFound() && p.pci.Ok? ==>
      && (p.settingsProbe.Unexpected? ==> status == p.settingsProbe.status)
      && (p.settingsProbe.TooSmall? ==>
            && (p.mapProbe.Unexpected? ==> status == p.mapProbe.status)
            && (p.mapProbe.TooSmall? && !p.poolAvailable ==> status == OutOfResources)
            && (p.mapProbe.TooSmall? && p.poolAvailable && p.settings.Failed? ==> status == p.settings.status))
    ensures match p.EarlyExit()
            case Some(s) => status == s && facs.hardwareSignature == old(facs.hardwareSignature)
            case None =>
              match crc32(SignatureBytes(p.CrcInputs(), p.settingsProbe.size))
              case Ok(crc) => status == Success && facs.hardwareSignature == crc
              case Failed(s) => status == s && facs.hardwareSignature == old(facs.hardwareSignature)
  {
    hide LayoutOf, WrappedLayout, MapPairs, MapFits, PciIds, SignatureBytes;
    if !p.algorithmSupported { return Unsupported; }
    if p.fadt.Failed? { return p.fadt.status; }
    if p.fadt.value.firmwareCtrl == 0 { return BadBufferSize; }
    if p.pci.Failed? { return p.pci.status; }
    if p.settingsProbe.Unexpected? { return p.settingsProbe.status; }
    if p.mapProbe.Unexpected? { return p.mapProbe.status; }
    PartStarts(|p.pci.value|, p.settingsProbe.size, p.mapProbe.size);
    var l := ComputeLayout(|p.pci.value|, p.settingsProbe.size, p.mapProbe.size);
    if !p.poolAvailable { return OutOfResources; }
    if p.settings.Failed? { return p.settings.status; }

    var bytes := BuildInput(l, p.settingsProbe.size, p.mapProbe.size, p.pci.value, p.fadt.value.xDsdt,
                            p.version, p.settings.value, p.memoryMap);
    match crc32(bytes)
    case Ok(crc) =>
      facs.hardwareSignature := crc;
      status := Success;
    case Failed(s) =>
      status := s;
  }

  lemma PartStarts(n: nat, settingsSize: nat, mapSize: nat)
    ensures var k, l := LayoutOf(n, settingsSize, 0), LayoutOf(n, settingsSize, mapSize);
            && l.part2 == RoundEven(n) + 2 && l.part3 == l.part2 + 2
            && l.part4 == k.part4 <= l.total
  {
    LayoutIsDisjoint(n, settingsSize, mapSize);
    hide RoundEven, WordsFor;
  }

  /** Steps 6 to 10: allocate, fill the four parts, and return the bytes up to the write cursor. */
  method BuildInput(l: Layout, settingsSize: nat, mapSize: nat, pci: seq<Option<U32>>, xDsdt: U64,
                    version: U32, settings: seq<Byte>, reply: Option<MapReply>)
    returns (bytes: seq<Byte>)
    requires l == LayoutOf(|pci|, settingsSize, mapSize) && l.part4 <= l.total && 4 * l.total < UINTN_LIMIT
    requires |settings| <= settingsSize && MapFits(reply, 4 * (l.total - l.part4))
    ensures var inp := Inputs(PciIds(pci), xDsdt, version, settings, MapPairs(reply, 4 * (l.total - l.part4)));
            bytes == SignatureBytes(inp, settingsSize)
  {
    ghost var inp := Inputs(PciIds(pci), xDsdt, version, settings, MapPairs(reply, 4 * (l.total - l.part4)));
    hide LE, WordsBytes, PairsBytes, PciIds, MapFits, MapPairs, RoundEven, WordsFor, LayoutOf, Header;
    PartStarts(|pci|, settingsSize, mapSize);
    var buf := new Byte[Wrap(4 * l.total)](_ => 0);
    assert buf[..] == Zeros(buf.Length);
    FillHeader(buf, l, settingsSize, pci, xDsdt, version, settings, inp);
    var base := 4 * l.part4;
    ghost var header := Header(inp, settingsSize);
    assert buf[base..] == Zeros(buf.Length - base) && buf[..base] == header;
    var mapState := FillMap(buf, base, reply);
    bytes := buf[..mapState];
    assert bytes == buf[..base] + buf[base..mapState];
  }
}
