/**
 * The geohash encoder: a point in decimal degrees to a 12-character geohash.
 *
 * The encoder bisects the world box sixty times, longitude first and then
 * alternating, and gathers the bits five at a time into an alphabet index. It is
 * specified by the bit sequence `EncodeBits(lat, lng, 60)`; the properties of that
 * sequence (the box it selects, the prefixes it shares with shorter hashes, what
 * the decoder reads back from it) are proved in GeoHashBits and here.
 */
module LatLngToGeoHash {
  import opened Numbers
  import opened Strings
  import opened GeoHashBits
  import opened Dtos

  /** The hash the encoder writes: the first sixty bits, five per character. */
  function Encode(latLng: LatLng): (hash: string)
  {
    Chars(EncodeBits(latLng.latitude, latLng.longitude, 60))
  }

  /** The geohash of the point at m characters: the first 5m bits, five per character. */
  function HashOfLength(latLng: LatLng, m: nat): (hash: string)
    ensures |hash| == m
  {
    FiveDivides(m);
    Chars(EncodeBits(latLng.latitude, latLng.longitude, 5 * m))
  }

  /** The encoder's variables between two passes of its loop. */
  datatype State = State(lat: Interval, lng: Interval, index: nat, bit: nat, hash: string, even: bool)

  /** The variables before the first pass. */
  const Start: State := State(World.lat, World.lng, 0, 0, "", true)

  /** Bounds every state of the encoder keeps: fewer than five bits gathered, and their value. */
  predicate Gathering(s: State)
  {
    s.bit < 5 && s.index < Pow2(s.bit)
  }

  /**
   * One pass of the loop: bisect the longitude on even passes and the latitude on
   * odd ones, shift the bit into the index, and after the fifth bit write the
   * index as a character and start a new one.
   */
  function Pass(s: State, latLng: LatLng): (t: State)
    requires Gathering(s)
    ensures Gathering(t)
  {
    var b := if s.even then latLng.longitude > Mid(s.lng) else latLng.latitude > Mid(s.lat);
    var lat := if s.even then s.lat else Halve(s.lat, b);
    var lng := if s.even then Halve(s.lng, b) else s.lng;
    var index := 2 * s.index + (if b then 1 else 0);
    assert index < Pow2(s.bit + 1);
    if s.bit + 1 == 5 then
      assert Pow2(5) == 32;
      State(lat, lng, 0, 0, s.hash + [Letter(index)], !s.even)
    else
      State(lat, lng, index, s.bit + 1, s.hash, !s.even)
  }

  /** The variables after n passes. */
  function After(latLng: LatLng, n: nat): (s: State)
    ensures Gathering(s)
  {
    if n == 0 then Start else Pass(After(latLng, n - 1), latLng)
  }

  /** `run`: the loop that bisects the world and writes a character every five bits. */
  method Run(latLng: LatLng) returns (g: GeoHash)
    ensures g.hash == Encode(latLng)
    ensures |g.hash| == 12
  {
    var index: nat := 0;
    var bit: nat := 0;
    var even := true;
    var geoHash := "";
    var lat := Interval(-90.0, 90.0);
    var lng := Interval(-180.0, 180.0);
    ghost var n: nat := 0;

    while |geoHash| < 12
      invariant n <= 60
      invariant State(lat, lng, index, bit, geoHash, even) == After(latLng, n)
      decreases 60 - n
    {
      Counted(latLng, n);
      ghost var before := State(lat, lng, index, bit, geoHash, even);
      var b: bool;
      if even {
        b, lng := Bisect(lng, latLng.longitude);
      } else {
        b, lat := Bisect(lat, latLng.latitude);
      }
      index := 2 * index + (if b then 1 else 0);
      even := !even;
      bit := bit + 1;
      if bit == 5 {
        geoHash := geoHash + [Letter(index)];
        bit := 0;
        index := 0;
      }
      assert State(lat, lng, index, bit, geoHash, even) == Pass(before, latLng);
      n := n + 1;
    }
    Finished(latLng, n);
    g := GeoHash(geoHash);
  }

  /** Every pass gathers one bit: five per character written, plus the ones pending. */
  lemma Counted(latLng: LatLng, n: nat)
    ensures 5 * |After(latLng, n).hash| + After(latLng, n).bit == n
  {
    AfterMeaning(latLng, n);
  }

  /** Once twelve characters are written, the hash is the encoding of the point. */
  lemma Finished(latLng: LatLng, n: nat)
    requires n <= 60 && |After(latLng, n).hash| >= 12
    ensures n == 60 && After(latLng, n).hash == Encode(latLng)
  {
    AfterMeaning(latLng, n);
    assert EncodeBits(latLng.latitude, latLng.longitude, 60)[..60] == EncodeBits(latLng.latitude, latLng.longitude, 60);
  }

  /**
   * One bisection of an interval: the bit is set, and the lower bound moves up to
   * the midpoint, exactly when v lies strictly above the midpoint; otherwise the
   * upper bound moves down to it.
   */
  method Bisect(iv: Interval, v: real) returns (b: bool, half: Interval)
    ensures b <==> v > Mid(iv)
    ensures half == Halve(iv, b)
  {
    var mid := (iv.min + iv.max) / 2.0;
    if v > mid {
      b, half := true, Interval(mid, iv.max);
    } else {
      b, half := false, Interval(iv.min, mid);
    }
  }

  /**
   * What the variables mean after n passes: the box is the one the first n bits
   * select, the hash holds the complete groups of five, and the index the bits
   * of the group being gathered.
   */
  predicate Describes(s: State, latLng: LatLng, n: nat)
  {
    var bits := EncodeBits(latLng.latitude, latLng.longitude, n);
    && Box(s.lat, s.lng) == Replay(bits)
    && (s.even <==> n % 2 == 0)
    && Gathered(s.hash, s.index, s.bit, bits)
  }

  /** The hash holds the complete groups of five bits, the index the rest. */
  predicate Gathered(hash: string, index: nat, bit: nat, bits: seq<bool>)
  {
    var k := 5 * |hash|;
    FiveDivides(|hash|);
    && k + bit == |bits|
    && hash == Chars(bits[..k])
    && index == ToNat(bits[k..])
  }

  lemma FiveDivides(j: nat)
    ensures (5 * j) % 5 == 0
  {
  }

  /** After n passes the variables mean what Describes says. */
  lemma {:induction false} AfterMeaning(latLng: LatLng, n: nat)
    ensures Describes(After(latLng, n), latLng, n)
  {
    if n > 0 {
      AfterMeaning(latLng, n - 1);
      PassMeaning(After(latLng, n - 1), latLng, n - 1);
    }
  }

  /** The induction step of AfterMeaning: one pass adds one bit. */
  lemma PassMeaning(s: State, latLng: LatLng, m: nat)
    requires Gathering(s) && Describes(s, latLng, m)
    ensures Describes(Pass(s, latLng), latLng, m + 1)
  {
    PassBox(s, latLng, m);
    PassGathers(s, latLng, m);
  }

  /** One pass halves the box the way the next bit says, and flips the axis. */
  lemma PassBox(s: State, latLng: LatLng, m: nat)
    requires Gathering(s)
    requires Box(s.lat, s.lng) == Replay(EncodeBits(latLng.latitude, latLng.longitude, m))
    requires s.even <==> m % 2 == 0
    ensures var t := Pass(s, latLng);
      && Box(t.lat, t.lng) == Replay(EncodeBits(latLng.latitude, latLng.longitude, m + 1))
      && (t.even <==> (m + 1) % 2 == 0)
  {
    var t := Pass(s, latLng);
    var bits := EncodeBits(latLng.latitude, latLng.longitude, m);
    var b := Bit(Replay(bits), m % 2 == 0, latLng.latitude, latLng.longitude);
    assert bits + [b] == EncodeBits(latLng.latitude, latLng.longitude, m + 1);
    assert Box(t.lat, t.lng) == Replay(bits + [b]) by {
      assert b == if s.even then latLng.longitude > Mid(s.lng) else latLng.latitude > Mid(s.lat);
      ReplayAppend(bits, b);
    }
    assert t.even <==> (m + 1) % 2 == 0 by {
      assert t.even == !s.even;
      Parity(m);
    }
  }

  /** One pass gathers the next bit into the index, or completes a character. */
  lemma PassGathers(s: State, latLng: LatLng, m: nat)
    requires Gathering(s) && Describes(s, latLng, m)
    ensures var t := Pass(s, latLng);
      Gathered(t.hash, t.index, t.bit, EncodeBits(latLng.latitude, latLng.longitude, m + 1))
  {
    var bits := EncodeBits(latLng.latitude, latLng.longitude, m);
    var b := Bit(Replay(bits), m % 2 == 0, latLng.latitude, latLng.longitude);
    assert bits + [b] == EncodeBits(latLng.latitude, latLng.longitude, m + 1);
    assert b == if s.even then latLng.longitude > Mid(s.lng) else latLng.latitude > Mid(s.lat);
    GatherStep(s.hash, s.index, s.bit, bits, b);
  }

  /** Consecutive numbers have opposite parity. */
  lemma Parity(m: nat)
    ensures (m + 1) % 2 == 0 <==> m % 2 != 0
  {
  }

  /** One more bit: it joins the index, and the fifth one turns the index into a character. */
  lemma GatherStep(hash: string, index: nat, bit: nat, bits: seq<bool>, b: bool)
    requires bit < 5 && Gathered(hash, index, bit, bits)
    ensures var index' := 2 * index + (if b then 1 else 0);
      if bit + 1 == 5 then index' < 32 && Gathered(hash + [Letter(index')], 0, 0, bits + [b])
      else Gathered(hash, index', bit + 1, bits + [b])
  {
    if bit + 1 == 5 {
      GatherChar(hash, index, bits, b);
    } else {
      GatherBit(hash, index, bit, bits, b);
    }
  }

  /** A bit short of the fifth joins the index. */
  lemma GatherBit(hash: string, index: nat, bit: nat, bits: seq<bool>, b: bool)
    requires bit + 1 < 5 && Gathered(hash, index, bit, bits)
    ensures Gathered(hash, 2 * index + (if b then 1 else 0), bit + 1, bits + [b])
  {
    var k := 5 * |hash|;
    assert (bits + [b])[..k] == bits[..k];
    assert (bits + [b])[k..] == bits[k..] + [b];
    ToNatAppend(bits[k..], b);
  }

  /** The fifth bit completes the index, which becomes the next character. */
  lemma GatherChar(hash: string, index: nat, bits: seq<bool>, b: bool)
    requires Gathered(hash, index, 4, bits)
    ensures 2 * index + (if b then 1 else 0) < 32
    ensures Gathered(hash + [Letter(2 * index + (if b then 1 else 0))], 0, 0, bits + [b])
  {
    var k := 5 * |hash|;
    var next := bits + [b];
    assert next[..k] == bits[..k];
    assert next[k..] == bits[k..] + [b];
    ToNatAppend(bits[k..], b);
    CharsAppend(bits[..k], next[k..]);
    assert bits[..k] + next[k..] == next;
    assert next[..k + 5] == next;
    assert next[k + 5..] == [];
  }

  /** Appending a bit doubles the value and adds the bit. */
  lemma ToNatAppend(bits: seq<bool>, b: bool)
    ensures ToNat(bits + [b]) == 2 * ToNat(bits) + (if b then 1 else 0)
  {
    assert (bits + [b])[..|bits|] == bits;
  }

  /** The first m characters of a hash are the hash of the first 5m bits. */
  lemma {:induction false} CharsPrefix(bits: seq<bool>, m: nat)
    requires |bits| % 5 == 0 && m <= |bits| / 5
    ensures Chars(bits)[..m] == Chars(bits[..5 * m])
    decreases |bits|
  {
    if 5 * m < |bits| {
      var n := |bits| - 5;
      FewerGroups(|bits|, m);
      CharsPrefix(bits[..n], m);
      CharsLast(bits, m);
    } else {
      assert bits[..5 * m] == bits;
    }
  }

  /** Fewer than all groups of five fit in the groups before the last one. */
  lemma FewerGroups(length: nat, m: nat)
    requires length % 5 == 0 && 5 * m < length
    ensures (length - 5) % 5 == 0 && m <= (length - 5) / 5
  {
  }

  /** The first m characters, short of the last one, are those of the bits before the last group. */
  lemma CharsLast(bits: seq<bool>, m: nat)
    requires |bits| % 5 == 0 && 5 * m < |bits|
    ensures (|bits| - 5) % 5 == 0
    ensures Chars(bits)[..m] == Chars(bits[..|bits| - 5])[..m]
    ensures bits[..|bits| - 5][..5 * m] == bits[..5 * m]
  {
    var n := |bits| - 5;
    FewerGroups(|bits|, m);
    var c := Letter(ToNat(bits[n..]));
    assert Chars(bits) == Chars(bits[..n]) + [c];
    PrefixOfAppend(Chars(bits[..n]), c, m);
  }

  /**
   * A geohash cut to m characters by `toString` is the geohash of the same point
   * at m characters: a shorter hash names a larger box around the same point.
   */
  lemma ToStringIsShorterHash(latLng: LatLng, given: int)
    ensures GeoHashToString(GeoHash(Encode(latLng)), given)
      == HashOfLength(latLng, Min(GetPrecision(given), 12))
  {
    var lat, lng := latLng.latitude, latLng.longitude;
    var m := Min(GetPrecision(given), 12);
    CharsPrefix(EncodeBits(lat, lng, 60), m);
    EncodePrefix(lat, lng, 5 * m, 60);
  }

  /** Every prefix of the hash, up to all twelve characters, replays to a box that contains the point. */
  lemma EncodeContainsPoint(latLng: LatLng, m: nat)
    requires Inside(World, latLng.latitude, latLng.longitude)
    requires m <= 12
    ensures Inside(Replay(HashBits(Encode(latLng)[..m])), latLng.latitude, latLng.longitude)
  {
    var lat, lng := latLng.latitude, latLng.longitude;
    EncodeDecodeBox(lat, lng);
    PrefixBoxNests(Encode(latLng), m);
  }

  /** The encoder writes twelve characters, every one of them from the alphabet. */
  lemma EncodeInAlphabet(latLng: LatLng)
    ensures |Encode(latLng)| == 12
    ensures forall i :: 0 <= i < 12 ==> Encode(latLng)[i] in HashMap
  {
    CharsInAlphabet(EncodeBits(latLng.latitude, latLng.longitude, 60));
  }
}
