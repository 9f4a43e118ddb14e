/**
 * The bit layer of the geohash codec, shared by the encoder and the decoder.
 *
 * A geohash is a sequence of bits read five at a time as indices into a
 * 32-character alphabet. Bit number i (counting from 0) bisects the longitude
 * interval when i is even and the latitude interval when i is odd, starting from
 * the whole world [-90, 90] x [-180, 180]; a set bit keeps the upper half, a clear
 * bit the lower half. Every bound is a dyadic rational, so the reals here are
 * exactly the doubles the encoder and decoder compute.
 */
module GeoHashBits {
  import opened Numbers
  import opened Wrappers
  import opened Strings

  /** The geohash alphabet: digits and lower-case letters without a, i, l and o. */
  const HashMap: string := "0123456789bcdefghjkmnpqrstuvwxyz"

  /**
   * `HASH_MAP[i]`, the character at position i of the alphabet, computed from
   * its code point (LetterInHashMap shows the two agree).
   */
  function Letter(i: nat): char
    requires i < 32
  {
    if i < 10 then (48 + i) as char              // '0' .. '9'
    else if i < 17 then (98 + (i - 10)) as char  // 'b' .. 'h'
    else if i < 19 then (106 + (i - 17)) as char // 'j', 'k'
    else if i < 21 then (109 + (i - 19)) as char // 'm', 'n'
    else (112 + (i - 21)) as char                // 'p' .. 'z'
  }

  datatype Interval = Interval(min: real, max: real)

  datatype Box = Box(lat: Interval, lng: Interval)

  /** The bounds both converters start from. */
  const World: Box := Box(Interval(-90.0, 90.0), Interval(-180.0, 180.0))

  function Mid(iv: Interval): real
  {
    (iv.min + iv.max) / 2.0
  }

  function Width(iv: Interval): real
  {
    iv.max - iv.min
  }

  predicate Ordered(box: Box)
  {
    box.lat.min < box.lat.max && box.lng.min < box.lng.max
  }

  /** inner lies within outer on both axes. */
  predicate Nests(outer: Box, inner: Box)
  {
    && outer.lat.min <= inner.lat.min && inner.lat.max <= outer.lat.max
    && outer.lng.min <= inner.lng.min && inner.lng.max <= outer.lng.max
  }

  /** The point (lat, lng) lies in the closed box. */
  predicate Inside(box: Box, lat: real, lng: real)
  {
    box.lat.min <= lat <= box.lat.max && box.lng.min <= lng <= box.lng.max
  }

  /** A set bit keeps the upper half of the interval, a clear bit the lower half. */
  function Halve(iv: Interval, bit: bool): Interval
  {
    if bit then Interval(Mid(iv), iv.max) else Interval(iv.min, Mid(iv))
  }

  /** One bisection: of the longitude on an even step, of the latitude on an odd one. */
  function Step(box: Box, even: bool, bit: bool): Box
  {
    if even then box.(lng := Halve(box.lng, bit)) else box.(lat := Halve(box.lat, bit))
  }

  /** The box left after bisecting the world by each bit in turn. */
  function Replay(bits: seq<bool>): Box
    decreases |bits|
  {
    if bits == [] then World
    else
      var n := |bits| - 1;
      Step(Replay(bits[..n]), n % 2 == 0, bits[n])
  }

  /** Replaying one more bit is one more step on the box replayed so far. */
  lemma ReplayAppend(bits: seq<bool>, b: bool)
    ensures Replay(bits + [b]) == Step(Replay(bits), |bits| % 2 == 0, b)
  {
    assert (bits + [b])[..|bits|] == bits;
  }

  /** The encoder's bit on a step: set exactly when the coordinate is strictly above the midpoint. */
  function Bit(box: Box, even: bool, lat: real, lng: real): bool
  {
    if even then lng > Mid(box.lng) else lat > Mid(box.lat)
  }

  /** The first n bits the encoder produces for the point (lat, lng). */
  function EncodeBits(lat: real, lng: real, n: nat): (bits: seq<bool>)
    ensures |bits| == n
    decreases n
  {
    if n == 0 then []
    else
      var front := EncodeBits(lat, lng, n - 1);
      front + [Bit(Replay(front), (n - 1) % 2 == 0, lat, lng)]
  }

  /** The value of a bit string, most significant bit first. */
  function ToNat(bits: seq<bool>): (v: nat)
    ensures v < Pow2(|bits|)
    decreases |bits|
  {
    if bits == [] then 0
    else
      var n := |bits| - 1;
      2 * ToNat(bits[..n]) + (if bits[n] then 1 else 0)
  }

  /** Every group of five bits, written as one alphabet character. */
  function Chars(bits: seq<bool>): (s: string)
    requires |bits| % 5 == 0
    ensures |s| == |bits| / 5
    decreases |bits|
  {
    if bits == [] then ""
    else
      var n := |bits| - 5;
      assert Pow2(5) == 32;
      Chars(bits[..n]) + [Letter(ToNat(bits[n..]))]
  }

  /**
   * The index of c in the alphabet, as the decoder uses it, computed from the
   * code point. A character outside the alphabet counts as index 0, the
   * character '0': `strpos` gives false for it and false & mask is 0
   * (CharValueIsStrPos shows the two readings agree).
   */
  function CharValue(c: char): (v: nat)
    ensures v < 32
  {
    if '0' <= c <= '9' then c as int - 48
    else if 'b' <= c <= 'h' then c as int - 98 + 10
    else if 'j' <= c <= 'k' then c as int - 106 + 17
    else if 'm' <= c <= 'n' then c as int - 109 + 19
    else if 'p' <= c <= 'z' then c as int - 112 + 21
    else 0
  }

  /** `strpos(HASH_MAP, c)`, with false read as 0. */
  function StrPosValue(c: char): nat
  {
    match StrPos(HashMap, [c])
    case Some(i) => i
    case None => 0
  }

  /** Whether `v & (1 << k)` is non-zero. */
  function BitAt(v: nat, k: nat): bool
  {
    (v / Pow2(k)) % 2 == 1
  }

  /** The five bits the decoder reads from one index, masks 16, 8, 4, 2 and 1 in turn. */
  function Bits5(v: nat): (bits: seq<bool>)
    ensures |bits| == 5
  {
    [BitAt(v, 4), BitAt(v, 3), BitAt(v, 2), BitAt(v, 1), BitAt(v, 0)]
  }

  /** All the bits the decoder replays for a hash, five per character. */
  function HashBits(hash: string): (bits: seq<bool>)
    ensures |bits| == 5 * |hash|
    decreases |hash|
  {
    if hash == [] then []
    else
      var n := |hash| - 1;
      HashBits(hash[..n]) + Bits5(CharValue(hash[n]))
  }

  // ---------------------------------------------------------------------------
  // The bisection
  // ---------------------------------------------------------------------------

  /**
   * Each step halves exactly one axis: after n bits the longitude interval has
   * been halved ceil(n/2) times and the latitude interval floor(n/2) times.
   */
  lemma ReplayWidths(bits: seq<bool>)
    ensures Spans(Replay(bits).lng, (|bits| + 1) / 2, 360.0)
    ensures Spans(Replay(bits).lat, |bits| / 2, 180.0)
  {
    LngWidth(bits);
    LatWidth(bits);
  }

  lemma {:induction false} LngWidth(bits: seq<bool>)
    ensures Spans(Replay(bits).lng, (|bits| + 1) / 2, 360.0)
    decreases |bits|
  {
    if bits == [] {
      assert Pow2(0) == 1;
    } else {
      var n := |bits| - 1;
      LngWidth(bits[..n]);
      ReplayLast(bits);
      Halvings(n);
      AxisStep(Replay(bits[..n]).lng, Replay(bits).lng, n % 2 == 0, bits[n], (n + 1) / 2, (|bits| + 1) / 2, 360.0);
    }
  }

  lemma {:induction false} LatWidth(bits: seq<bool>)
    ensures Spans(Replay(bits).lat, |bits| / 2, 180.0)
    decreases |bits|
  {
    if bits == [] {
      assert Pow2(0) == 1;
    } else {
      var n := |bits| - 1;
      LatWidth(bits[..n]);
      ReplayLast(bits);
      Halvings(n);
      AxisStep(Replay(bits[..n]).lat, Replay(bits).lat, n % 2 == 1, bits[n], n / 2, |bits| / 2, 180.0);
    }
  }

  /** The interval is 1 / 2^k of total wide: it is what k halvings leave of an interval that wide. */
  predicate Spans(iv: Interval, k: nat, total: real)
  {
    Width(iv) * Pow2(k) as real == total
  }

  /** The last bit of a replay bisects the longitude after an even count of bits, the latitude after an odd one. */
  lemma ReplayLast(bits: seq<bool>)
    requires |bits| > 0
    ensures var n := |bits| - 1;
      && Replay(bits).lng == (if n % 2 == 0 then Halve(Replay(bits[..n]).lng, bits[n]) else Replay(bits[..n]).lng)
      && Replay(bits).lat == (if n % 2 == 1 then Halve(Replay(bits[..n]).lat, bits[n]) else Replay(bits[..n]).lat)
  {
  }

  /** How the counts of longitude and latitude halvings grow with one more bit. */
  lemma Halvings(n: nat)
    ensures (n + 2) / 2 == if n % 2 == 0 then (n + 1) / 2 + 1 else (n + 1) / 2
    ensures (n + 1) / 2 == if n % 2 == 1 then n / 2 + 1 else n / 2
  {
  }

  /** One step halves an axis it bisects and keeps the other: the count of halvings follows. */
  lemma AxisStep(iv: Interval, next: Interval, halved: bool, bit: bool, k: nat, k1: nat, total: real)
    requires next == if halved then Halve(iv, bit) else iv
    requires k1 == if halved then k + 1 else k
    requires Spans(iv, k, total)
    ensures Spans(next, k1, total)
  {
    if halved {
      HalvedWidth(iv, next, bit, k, k1, total);
    }
  }

  /** Halving an interval of width w with w * 2^k == total leaves width w' with w' * 2^(k+1) == total. */
  lemma HalvedWidth(iv: Interval, half: Interval, bit: bool, k: nat, k1: nat, total: real)
    requires half == Halve(iv, bit) && k1 == k + 1
    requires Width(iv) * Pow2(k) as real == total
    ensures Width(half) * Pow2(k1) as real == total
  {
    var w, p := Width(iv), Pow2(k) as real;
    assert Width(half) == w / 2.0;
    assert Pow2(k1) as real == 2.0 * p;
    assert (w / 2.0) * (2.0 * p) == w * p;
  }

  /** Every replayed box is a proper box inside the world. */
  lemma {:induction false} ReplayInWorld(bits: seq<bool>)
    ensures Ordered(Replay(bits))
    ensures Nests(World, Replay(bits))
    decreases |bits|
  {
    if bits != [] {
      var n := |bits| - 1;
      ReplayInWorld(bits[..n]);
      assert bits == bits[..n] + [bits[n]];
      ReplayAppend(bits[..n], bits[n]);
    }
  }

  /** The box of a prefix of the bits contains the box of all of them. */
  lemma {:induction false} ReplayPrefixNests(bits: seq<bool>, m: nat)
    requires m <= |bits|
    ensures Nests(Replay(bits[..m]), Replay(bits))
    decreases |bits| - m
  {
    if m < |bits| {
      var n := |bits| - 1;
      ReplayPrefixNests(bits[..n], m);
      assert bits[..n][..m] == bits[..m];
      assert bits == bits[..n] + [bits[n]];
      ReplayInWorld(bits[..n]);
      ReplayAppend(bits[..n], bits[n]);
    } else {
      assert bits[..m] == bits;
    }
  }

  // ---------------------------------------------------------------------------
  // The encoder's bits
  // ---------------------------------------------------------------------------

  /** The encoder's bits for n steps are the first n of its bits for any longer run. */
  lemma {:induction false} EncodePrefix(lat: real, lng: real, m: nat, n: nat)
    requires m <= n
    ensures EncodeBits(lat, lng, n)[..m] == EncodeBits(lat, lng, m)
    decreases n - m
  {
    if m < n {
      EncodePrefix(lat, lng, m, n - 1);
      var front := EncodeBits(lat, lng, n - 1);
      PrefixOfAppend(front, Bit(Replay(front), (n - 1) % 2 == 0, lat, lng), m);
    }
  }

  /**
   * Bit i of the encoding is set exactly when the coordinate of the axis that step
   * i bisects (longitude on even steps) is strictly above the current midpoint.
   */
  lemma EncodeBitMeaning(lat: real, lng: real, n: nat, i: nat)
    requires i < n
    ensures var box := Replay(EncodeBits(lat, lng, n)[..i]);
      EncodeBits(lat, lng, n)[i] <==> if i % 2 == 0 then lng > Mid(box.lng) else lat > Mid(box.lat)
  {
    EncodePrefix(lat, lng, i + 1, n);
    EncodePrefix(lat, lng, i, n);
    assert EncodeBits(lat, lng, n)[i] == EncodeBits(lat, lng, i + 1)[i];
  }

  /** A point of the world stays inside the box on every step of its own encoding. */
  lemma {:induction false} EncodeInside(lat: real, lng: real, n: nat)
    requires Inside(World, lat, lng)
    ensures Inside(Replay(EncodeBits(lat, lng, n)), lat, lng)
    decreases n
  {
    if n > 0 {
      var front := EncodeBits(lat, lng, n - 1);
      EncodeInside(lat, lng, n - 1);
      ReplayAppend(front, Bit(Replay(front), (n - 1) % 2 == 0, lat, lng));
    }
  }

  // ---------------------------------------------------------------------------
  // Characters
  // ---------------------------------------------------------------------------

  /** Letter(i) is the character at position i of the alphabet. */
  lemma LetterInHashMap(i: nat)
    requires i < 32
    ensures Letter(i) == HashMap[i]
  {
    if i < 16 {
      assert forall m :: 0 <= m < 16 ==> Letter(m) == HashMap[m];
    } else {
      assert forall m :: 16 <= m < 32 ==> Letter(m) == HashMap[m];
    }
  }

  lemma LetterIsInHashMap(i: nat)
    requires i < 32
    ensures Letter(i) in HashMap
  {
    LetterInHashMap(i);
  }

  /** The alphabet is strictly increasing, so no character occurs twice. */
  lemma HashMapIncreasing(i: nat, j: nat)
    requires i < j < 32
    ensures HashMap[i] < HashMap[j]
  {
    LetterInHashMap(i);
    LetterInHashMap(j);
  }

  /** Every character the encoder writes is in the alphabet. */
  lemma {:induction false} CharsInAlphabet(bits: seq<bool>)
    requires |bits| % 5 == 0
    ensures forall i :: 0 <= i < |Chars(bits)| ==> Chars(bits)[i] in HashMap
    decreases |bits|
  {
    if bits != [] {
      var n := |bits| - 5;
      CharsInAlphabet(bits[..n]);
      assert Pow2(5) == 32;
      LetterIsInHashMap(ToNat(bits[n..]));
    }
  }

  /** Looking up the character at index i gives back i. */
  lemma CharValueOfIndex(i: nat)
    requires i < 32
    ensures CharValue(Letter(i)) == i
  {
  }

  /** A character of the alphabet is the letter at its own index. */
  lemma LetterOfCharValue(c: char)
    requires c in HashMap
    ensures c == Letter(CharValue(c))
  {
    var i :| 0 <= i < 32 && HashMap[i] == c;
    LetterInHashMap(i);
    CharValueOfIndex(i);
  }

  /** `strpos` finds the letter at index i at position i. */
  lemma StrPosOfLetter(i: nat)
    requires i < 32
    ensures StrPos(HashMap, [Letter(i)]) == Some(i)
  {
    LetterInHashMap(i);
    HashMapIsIncreasing();
    StrPosIncreasing(HashMap, i);
  }

  /** No character of hay comes before an earlier one: each is greater than all before it. */
  predicate Increasing(hay: string)
  {
    forall a, b :: 0 <= a < b < |hay| ==> hay[a] < hay[b]
  }

  lemma HashMapIsIncreasing()
    ensures Increasing(HashMap)
  {
    forall a, b | 0 <= a < b < |HashMap|
      ensures HashMap[a] < HashMap[b]
    {
      HashMapIncreasing(a, b);
    }
  }

  /** In an increasing text each character is found at its own position. */
  lemma StrPosIncreasing(hay: string, i: nat)
    requires i < |hay| && Increasing(hay)
    ensures StrPos(hay, [hay[i]]) == Some(i)
  {
    FirstOccurrence(hay, i);
  }

  /** The code-point index agrees with `strpos` on every character, known or not. */
  lemma CharValueIsStrPos(c: char)
    ensures CharValue(c) == StrPosValue(c)
  {
    if c in HashMap {
      LetterOfCharValue(c);
      StrPosOfLetter(CharValue(c));
    } else {
      if CharValue(c) != 0 {
        CharValueOfIndex(CharValue(c));
        LetterOfCharValue(Letter(CharValue(c)));
      }
    }
  }

  /** A character outside the alphabet is read as index 0, like the character '0'. */
  lemma UnknownCharIsZero(c: char)
    requires c !in HashMap
    ensures CharValue(c) == 0
    ensures Bits5(CharValue(c)) == [false, false, false, false, false]
  {
  }

  /** The five masks read back the five bits of an index, most significant first. */
  lemma Bits5OfToNat(bits: seq<bool>)
    requires |bits| == 5
    ensures Bits5(ToNat(bits)) == bits
  {
    ToNatFive(bits);
    Bits5OfSum(bits[0], bits[1], bits[2], bits[3], bits[4]);
    assert bits == [bits[0], bits[1], bits[2], bits[3], bits[4]];
  }

  function B(b: bool): nat
  {
    if b then 1 else 0
  }

  lemma ToNatFive(bits: seq<bool>)
    requires |bits| == 5
    ensures ToNat(bits) == 16 * B(bits[0]) + 8 * B(bits[1]) + 4 * B(bits[2]) + 2 * B(bits[3]) + B(bits[4])
  {
    assert bits[..0] == [];
    ToNatPrefix(bits, 1);
    ToNatPrefix(bits, 2);
    ToNatPrefix(bits, 3);
    ToNatPrefix(bits, 4);
    ToNatPrefix(bits, 5);
    assert bits[..5] == bits;
  }

  /** The value of the first k bits: twice that of the first k - 1, plus bit k - 1. */
  lemma ToNatPrefix(bits: seq<bool>, k: nat)
    requires 1 <= k <= |bits|
    ensures ToNat(bits[..k]) == 2 * ToNat(bits[..k - 1]) + B(bits[k - 1])
  {
    assert bits[..k][..k - 1] == bits[..k - 1];
  }

  lemma Bits5OfSum(b0: bool, b1: bool, b2: bool, b3: bool, b4: bool)
    ensures Bits5(16 * B(b0) + 8 * B(b1) + 4 * B(b2) + 2 * B(b3) + B(b4)) == [b0, b1, b2, b3, b4]
  {
    assert Pow2(0) == 1 && Pow2(1) == 2 && Pow2(2) == 4 && Pow2(3) == 8 && Pow2(4) == 16;
  }

  /** The decoder reads back exactly the bits the characters were written from. */
  lemma {:induction false} HashBitsOfChars(bits: seq<bool>)
    requires |bits| % 5 == 0
    ensures HashBits(Chars(bits)) == bits
    decreases |bits|
  {
    if bits != [] {
      var n := |bits| - 5;
      assert bits[..n] + bits[n..] == bits;
      assert |bits[..n]| % 5 == 0 && |bits[n..]| == 5;
      HashBitsOfChars(bits[..n]);
      HashBitsStep(bits[..n], bits[n..]);
    }
  }

  /** The induction step of HashBitsOfChars: five more bits come back from the character they write. */
  lemma HashBitsStep(front: seq<bool>, last: seq<bool>)
    requires |front| % 5 == 0 && |last| == 5
    requires HashBits(Chars(front)) == front
    ensures HashBits(Chars(front + last)) == front + last
  {
    CharsAppend(front, last);
    HashBitsAppend(Chars(front), Letter(ToNat(last)));
    CharValueOfIndex(ToNat(last));
    Bits5OfToNat(last);
  }

  /** Five more bits add one character to the hash. */
  lemma CharsAppend(bits: seq<bool>, five: seq<bool>)
    requires |bits| % 5 == 0 && |five| == 5
    ensures ToNat(five) < 32
    ensures Chars(bits + five) == Chars(bits) + [Letter(ToNat(five))]
  {
    assert Pow2(5) == 32;
    var all := bits + five;
    assert all[..|bits|] == bits && all[|bits|..] == five;
  }

  /** One more character adds its five bits to the decoder's bits. */
  lemma HashBitsAppend(hash: string, c: char)
    ensures HashBits(hash + [c]) == HashBits(hash) + Bits5(CharValue(c))
  {
    assert (hash + [c])[..|hash|] == hash;
  }

  /** The bits of a prefix of the hash are a prefix of the bits of the hash. */
  lemma {:induction false} HashBitsPrefix(hash: string, m: nat)
    requires m <= |hash|
    ensures HashBits(hash[..m]) == HashBits(hash)[..5 * m]
    decreases |hash| - m
  {
    if m < |hash| {
      var n := |hash| - 1;
      var front := hash[..n];
      HashBitsPrefix(front, m);
      assert front[..m] == hash[..m];
      HashBitsFront(hash);
      assert HashBits(hash)[..5 * n][..5 * m] == HashBits(hash)[..5 * m];
    } else {
      assert hash[..m] == hash;
    }
  }

  /** Dropping the last character drops its five bits. */
  lemma HashBitsFront(hash: string)
    requires |hash| > 0
    ensures HashBits(hash)[..5 * (|hash| - 1)] == HashBits(hash[..|hash| - 1])
  {
  }

  /** The box of a prefix of a hash contains the box of the whole hash. */
  lemma PrefixBoxNests(hash: string, m: nat)
    requires m <= |hash|
    ensures Nests(Replay(HashBits(hash[..m])), Replay(HashBits(hash)))
  {
    HashBitsPrefix(hash, m);
    ReplayPrefixNests(HashBits(hash), 5 * m);
  }

  /**
   * The 12 characters the encoder writes for a point of the world replay to the
   * encoder's own final box, which contains the point.
   */
  lemma EncodeDecodeBox(lat: real, lng: real)
    requires Inside(World, lat, lng)
    ensures Replay(HashBits(Chars(EncodeBits(lat, lng, 60)))) == Replay(EncodeBits(lat, lng, 60))
    ensures Inside(Replay(HashBits(Chars(EncodeBits(lat, lng, 60)))), lat, lng)
  {
    HashBitsOfChars(EncodeBits(lat, lng, 60));
    EncodeInside(lat, lng, 60);
  }
}
