/** Specification-level LSB-first pulse-distance coding of data bits.

    The library's own pulse-level routines (sending from an array of words,
    checking a header, decoding a run of pulse-distance bits) are not part of
    this model. What is here is only the ideal, noise-free meaning of a frame
    that those routines send and read: the order in which the bits of the raw
    words go on the air, the mark/space pair that carries each bit, and a
    decoder that accepts exactly those durations. The Kaseikyo lemmas use it to
    state where in the timing buffer each field of a frame lies. */
module PulseDistance {
  import opened Bitwise
  import opened IRData

  /** The timing description a protocol hands to the generic routines
      (`PulseDistanceWidthProtocolConstants`); durations in microseconds. */
  datatype ProtocolConstants = ProtocolConstants(
    protocol: Protocol,
    frequencyKHz: nat,
    headerMarkMicros: nat,
    headerSpaceMicros: nat,
    oneMarkMicros: nat,
    oneSpaceMicros: nat,
    zeroMarkMicros: nat,
    zeroSpaceMicros: nat,
    isLsbFirst: bool,
    sendStopBit: bool,
    repeatPeriodMillis: nat
  )

  /** A one bit and a zero bit are told apart by their durations. */
  predicate Distinguishable(c: ProtocolConstants) {
    c.oneMarkMicros != c.zeroMarkMicros || c.oneSpaceMicros != c.zeroSpaceMicros
  }

  /** The `n` low bits of `x`, least significant first. */
  function Bits(x: nat, n: nat): (bits: seq<bool>)
    ensures |bits| == n
  {
    if n == 0 then [] else [x % 2 == 1] + Bits(x / 2, n - 1)
  }

  /** The number whose bits, least significant first, are `bits`. */
  function Value(bits: seq<bool>): (x: nat)
    ensures x < Pow2(|bits|)
  {
    if bits == [] then 0 else (if bits[0] then 1 else 0) + 2 * Value(bits[1..])
  }

  /** Reading back the `n` bits of a number that fits in `n` bits gives the
      number. */
  lemma {:induction false} ValueOfBits(x: nat, n: nat)
    requires x < Pow2(n)
    ensures Value(Bits(x, n)) == x
  {
    if n > 0 {
      ValueOfBits(x / 2, n - 1);
      var bits := Bits(x, n);
      assert bits[0] == (x % 2 == 1) && bits[1..] == Bits(x / 2, n - 1);
    }
  }

  /** The `a + b` bits of `x + 2^a * y` are the `a` bits of `x` followed by
      the `b` bits of `y`, when `x` fits in `a` bits. */
  lemma {:induction false} BitsSplit(x: nat, y: nat, a: nat, b: nat)
    requires x < Pow2(a)
    ensures Bits(x + Pow2(a) * y, a + b) == Bits(x, a) + Bits(y, b)
  {
    if a > 0 {
      var t := Pow2(a - 1) * y;
      assert Pow2(a) * y == 2 * t;
      assert (x + 2 * t) % 2 == x % 2 && (x + 2 * t) / 2 == x / 2 + t;
      BitsSplit(x / 2, y, a - 1, b);
    }
  }

  /** The number an array of 32-bit words stands for when word 0 holds its
      least significant 32 bits, word 1 the next 32, and so on. */
  function ArrayValue(words: seq<Long>): nat {
    if words == [] then 0 else words[0] + 0x1_0000_0000 * ArrayValue(words[1..])
  }

  /** The first `n` bits sent from an array of 32-bit words, LSB first: the
      low bits of the number the array stands for. */
  function Stream(words: seq<Long>, n: nat): (bits: seq<bool>)
    requires n <= 32 * |words|
    ensures |bits| == n
  {
    Bits(ArrayValue(words), n)
  }

  lemma ArrayValueOfTwo(words: seq<Long>)
    requires |words| == 2
    ensures ArrayValue(words) == words[0] as nat + 0x1_0000_0000 * (words[1] as nat)
  {
    var rest := words[1..];
    assert rest[1..] == [];
    assert ArrayValue(rest) == rest[0] + 0x1_0000_0000 * ArrayValue(rest[1..]);
  }

  /** The 48 bits of `v + 2^16 * p`, for `v` of 16 bits: the bits of `v`,
      then 32 bits of `p`. */
  lemma BitsAbove16(x: nat, v: nat, p: nat)
    requires v < 0x1_0000 && x == v + 0x1_0000 * p
    ensures Bits(x, 48) == Bits(v, 16) + Bits(p, 32)
  {
    Pow2Values();
    BitsSplit(v, p, 16, 32);
  }

  /** The 48 bits sent from two words that together stand for `v + 2^16 * p`
      (`v` of 16 bits) are the 16 bits of `v` followed by 32 bits of `p`. */
  lemma StreamOfTwoWords(words: seq<Long>, v: nat, p: nat)
    requires |words| == 2 && v < 0x1_0000
    requires words[0] as nat + 0x1_0000_0000 * (words[1] as nat) == v + 0x1_0000 * p
    ensures Stream(words, 48) == Bits(v, 16) + Bits(p, 32)
  {
    ArrayValueOfTwo(words);
    BitsAbove16(ArrayValue(words), v, p);
  }

  /** The mark and space that carry one bit. */
  function Pulse(c: ProtocolConstants, bit: bool): seq<nat> {
    if bit then [c.oneMarkMicros, c.oneSpaceMicros] else [c.zeroMarkMicros, c.zeroSpaceMicros]
  }

  /** The durations that carry `bits`, two entries (mark, space) per bit. */
  function Timings(c: ProtocolConstants, bits: seq<bool>): (t: seq<nat>)
    ensures |t| == 2 * |bits|
  {
    if bits == [] then [] else Pulse(c, bits[0]) + Timings(c, bits[1..])
  }

  /** The durations of two runs of bits are the durations of the first run
      followed by those of the second. */
  lemma {:induction false} TimingsConcat(c: ProtocolConstants, s: seq<bool>, t: seq<bool>)
    ensures Timings(c, s + t) == Timings(c, s) + Timings(c, t)
  {
    if s == [] {
      assert s + t == t;
    } else {
      assert (s + t)[0] == s[0] && (s + t)[1..] == s[1..] + t;
      TimingsConcat(c, s[1..], t);
    }
  }

  /** The timing buffer an ideal receiver holds after one frame: the gap
      before it, the header mark and space, two entries per data bit and,
      when the protocol sends one, the mark of the stop bit. */
  function Frame(c: ProtocolConstants, gap: nat, bits: seq<bool>): (buffer: seq<nat>)
    ensures |buffer| == 3 + 2 * |bits| + (if c.sendStopBit then 1 else 0)
  {
    [gap, c.headerMarkMicros, c.headerSpaceMicros] + Timings(c, bits)
      + (if c.sendStopBit then [c.oneMarkMicros] else [])
  }

  /** The ideal header check: the entries after the leading gap are the
      header mark and header space. */
  predicate HeaderMatches(c: ProtocolConstants, buffer: seq<nat>) {
    |buffer| > 2 && buffer[1] == c.headerMarkMicros && buffer[2] == c.headerSpaceMicros
  }

  /** The ideal bit decoder: reads `n` bits from `buffer` starting at entry
      `start`, two entries per bit; fails when the buffer ends early or a pair
      is neither the one pair nor the zero pair. */
  function MatchBits(c: ProtocolConstants, buffer: seq<nat>, start: nat, n: nat): (r: Option<seq<bool>>)
    ensures r.Some? ==> |r.value| == n
    decreases n
  {
    if n == 0 then Some([])
    else if start + 1 >= |buffer| then None
    else
      var bit :=
        if buffer[start] == c.oneMarkMicros && buffer[start + 1] == c.oneSpaceMicros then Some(true)
        else if buffer[start] == c.zeroMarkMicros && buffer[start + 1] == c.zeroSpaceMicros then Some(false)
        else None;
      match bit
      case None => None
      case Some(b) =>
        match MatchBits(c, buffer, start + 2, n - 1)
        case None => None
        case Some(rest) => Some([b] + rest)
  }

  /** Where the durations of two runs of bits lie in the frame that carries
      them one after the other. */
  lemma FrameSlices(c: ProtocolConstants, gap: nat, first: seq<bool>, second: seq<bool>)
    ensures var buffer := Frame(c, gap, first + second);
      && buffer[3..3 + 2 * |first|] == Timings(c, first)
      && buffer[3 + 2 * |first|..3 + 2 * |first| + 2 * |second|] == Timings(c, second)
  {
    TimingsConcat(c, first, second);
    var head: seq<nat> := [gap, c.headerMarkMicros, c.headerSpaceMicros];
    var tail: seq<nat> := if c.sendStopBit then [c.oneMarkMicros] else [];
    var one, two := Timings(c, first), Timings(c, second);
    assert Frame(c, gap, first + second) == head + (one + two) + tail;
    SlicesOfTwo(head, one, two, tail);
  }

  /** The two middle parts of four sequences put together. */
  lemma SlicesOfTwo<T>(head: seq<T>, one: seq<T>, two: seq<T>, tail: seq<T>)
    ensures var s := head + (one + two) + tail;
      && s[|head|..|head| + |one|] == one
      && s[|head| + |one|..|head| + |one| + |two|] == two
  {
    var s := head + (one + two) + tail;
    assert s == head + one + (two + tail);
    SliceOfMiddle(head, one, two + tail);
    assert s == (head + one) + two + tail;
    SliceOfMiddle(head + one, two, tail);
  }

  /** The middle of three sequences put together. */
  lemma SliceOfMiddle<T>(x: seq<T>, y: seq<T>, z: seq<T>)
    ensures (x + y + z)[|x|..|x| + |y|] == y
  {
  }

  /** The ideal word decoder: the number that `n` bits read LSB first
      stand for. */
  function DecodeWord(c: ProtocolConstants, buffer: seq<nat>, start: nat, n: nat): (r: Option<nat>)
    ensures r.Some? ==> r.value < Pow2(n)
  {
    match MatchBits(c, buffer, start, n)
    case None => None
    case Some(bits) => Some(Value(bits))
  }

  /** The ideal word decoder as the receiver uses it: the word lands in the
      32-bit raw-data field of the decoded record, so at most 32 bits are
      read. */
  function DecodeRawWord(c: ProtocolConstants, buffer: seq<nat>, start: nat, n: nat): Option<Long>
    requires n <= 32
  {
    match DecodeWord(c, buffer, start, n)
    case None => None
    case Some(x) => Pow2Monotone(n, 32); Pow2Values(); Some(x)
  }

  /** The ideal bit decoder reads back exactly the bits whose durations lie in
      the buffer at `start`. */
  lemma {:induction false} MatchTimings(c: ProtocolConstants, buffer: seq<nat>, start: nat, bits: seq<bool>)
    requires Distinguishable(c)
    requires start + 2 * |bits| <= |buffer|
    requires buffer[start..start + 2 * |bits|] == Timings(c, bits)
    ensures MatchBits(c, buffer, start, |bits|) == Some(bits)
    decreases bits
  {
    if bits != [] {
      var t := Timings(c, bits);
      assert t == Pulse(c, bits[0]) + Timings(c, bits[1..]);
      assert buffer[start] == t[0] && buffer[start + 1] == t[1];
      assert buffer[start + 2..start + 2 + 2 * |bits[1..]|] == t[2..];
      MatchTimings(c, buffer, start + 2, bits[1..]);
      assert [bits[0]] + bits[1..] == bits;
    }
  }

  /** The ideal word decoder reads back a number from the durations of its
      `n` low bits, whenever the number fits in `n` bits. */
  lemma DecodeTimings(c: ProtocolConstants, buffer: seq<nat>, start: nat, x: nat, n: nat)
    requires Distinguishable(c)
    requires x < Pow2(n)
    requires start + 2 * n <= |buffer|
    requires buffer[start..start + 2 * n] == Timings(c, Bits(x, n))
    ensures DecodeWord(c, buffer, start, n) == Some(x)
  {
    MatchTimings(c, buffer, start, Bits(x, n));
    ValueOfBits(x, n);
  }
}
