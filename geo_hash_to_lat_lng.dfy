/**
 * The geohash decoder: a geohash to a point in decimal degrees.
 *
 * The decoder replays the bisection the encoder performed: each character gives
 * five bits (its alphabet index, most significant bit first; an unknown
 * character counts as index 0), each bit keeps the upper or the lower half of
 * the longitude or the latitude interval in turn. The point is the middle of
 * the final box, rounded half-down to as many decimals as the box's width calls
 * for (`hashDigits`, a parameter of the model).
 */
module GeoHashToLatLng {
  import opened Numbers
  import opened Numerics
  import opened GeoHashBits
  import opened Dtos
  import LatLngToGeoHash

  /** The decoder's result: the middle of the replayed box, each axis rounded. */
  function Decode(k: Kernels, g: GeoHash): LatLng
  {
    var box := Replay(HashBits(g.hash));
    LatLng(Rounded(box.lat, k.hashDigits(Width(box.lat))), Rounded(box.lng, k.hashDigits(Width(box.lng))))
  }

  /**
   * The middle of an interval rounded half-down to the given decimals: within half
   * a unit of the last kept decimal of the true middle.
   */
  function Rounded(iv: Interval, digits: int): (c: real)
    ensures Abs(c - Mid(iv)) <= HalfUnit(digits)
  {
    RoundHalfDownClose(Mid(iv), digits);
    RoundHalfDown(Mid(iv), digits)
  }

  /** The decoder's intervals and its axis flag. */
  datatype Walk = Walk(lat: Interval, lng: Interval, even: bool)

  /** The variables before the first character: the world, longitude first. */
  const Start: Walk := Walk(World.lat, World.lng, true)

  /** One bit: halve the longitude when the flag is set, the latitude otherwise, and flip the flag. */
  function Feed(w: Walk, bit: bool): Walk
  {
    if w.even then Walk(w.lat, Halve(w.lng, bit), false) else Walk(Halve(w.lat, bit), w.lng, true)
  }

  /** The variables after feeding the given bits, in order, starting from w. */
  function Feeds(w: Walk, bits: seq<bool>): Walk
    decreases |bits|
  {
    if bits == [] then w
    else
      var n := |bits| - 1;
      Feed(Feeds(w, bits[..n]), bits[n])
  }

  /** `run`: a loop over the characters, each giving five bits, then the rounding. */
  method Run(k: Kernels, g: GeoHash) returns (ll: LatLng)
    ensures ll == Decode(k, g)
  {
    var hash := g.hash;
    var isEven := true;
    var latMin, latMax := -90.0, 90.0;
    var lngMin, lngMax := -180.0, 180.0;

    for i := 0 to |hash|
      invariant Walk(Interval(latMin, latMax), Interval(lngMin, lngMax), isEven) == Feeds(Start, HashBits(hash[..i]))
    {
      var c := hash[i];
      var cd := CharValue(c);
      latMin, latMax, lngMin, lngMax, isEven := ReadChar(cd, latMin, latMax, lngMin, lngMax, isEven);
      FeedsAppend(Start, HashBits(hash[..i]), Bits5(cd));
      HashBitsStep(hash, i);
    }

    var lat := (latMin + latMax) / 2.0;
    var lng := (lngMin + lngMax) / 2.0;
    lat := RoundHalfDown(lat, k.hashDigits(latMax - latMin));
    lng := RoundHalfDown(lng, k.hashDigits(lngMax - lngMin));
    ll := LatLng(lat, lng);
    assert ll == Decode(k, g) by {
      assert hash[..|hash|] == hash;
      DecodeOfWalk(k, g);
    }
  }

  /**
   * The inner loop of `run`: the five bits of one character index, masks 16, 8, 4,
   * 2 and 1, each halving the longitude or the latitude in turn.
   */
  method ReadChar(cd: nat, latMin0: real, latMax0: real, lngMin0: real, lngMax0: real, isEven0: bool)
    returns (latMin: real, latMax: real, lngMin: real, lngMax: real, isEven: bool)
    ensures Walk(Interval(latMin, latMax), Interval(lngMin, lngMax), isEven)
      == Feeds(Walk(Interval(latMin0, latMax0), Interval(lngMin0, lngMax0), isEven0), Bits5(cd))
  {
    ghost var start := Walk(Interval(latMin0, latMax0), Interval(lngMin0, lngMax0), isEven0);
    latMin, latMax, lngMin, lngMax, isEven := latMin0, latMax0, lngMin0, lngMax0, isEven0;
    for j := 0 to 5
      invariant Walk(Interval(latMin, latMax), Interval(lngMin, lngMax), isEven) == Feeds(start, Bits5(cd)[..j])
    {
      MaskBit(cd, j);
      if isEven {
        var lngMid := (lngMin + lngMax) / 2.0;
        if BitAt(cd, 4 - j) {
          lngMin := lngMid;
        } else {
          lngMax := lngMid;
        }
      } else {
        var latMid := (latMin + latMax) / 2.0;
        if BitAt(cd, 4 - j) {
          latMin := latMid;
        } else {
          latMax := latMid;
        }
      }
      isEven := !isEven;
      FeedsStep(start, Bits5(cd), j);
    }
    assert Bits5(cd)[..5] == Bits5(cd);
  }

  /** The decoder's result, read off the walk over all the bits of the hash. */
  lemma DecodeOfWalk(k: Kernels, g: GeoHash)
    ensures var w := Feeds(Start, HashBits(g.hash));
      Decode(k, g) == LatLng(RoundHalfDown(Mid(w.lat), k.hashDigits(Width(w.lat))), RoundHalfDown(Mid(w.lng), k.hashDigits(Width(w.lng))))
  {
    FeedsReplay(HashBits(g.hash));
  }

  /** The mask `1 << (4 - j)` picks bit j of the group of five. */
  lemma MaskBit(cd: nat, j: nat)
    requires j < 5
    ensures BitAt(cd, 4 - j) == Bits5(cd)[j]
  {
  }

  /** Feeding the next bit of a group of five. */
  lemma FeedsStep(w: Walk, five: seq<bool>, j: nat)
    requires |five| == 5 && j < 5
    ensures Feeds(w, five[..j + 1]) == Feed(Feeds(w, five[..j]), five[j])
  {
    assert five[..j + 1][..j] == five[..j];
  }

  /** Feeding a + b is feeding a, then b. */
  lemma {:induction false} FeedsAppend(w: Walk, a: seq<bool>, b: seq<bool>)
    ensures Feeds(w, a + b) == Feeds(Feeds(w, a), b)
    decreases |b|
  {
    if b == [] {
      assert a + b == a;
    } else {
      var n := |b| - 1;
      FeedsAppend(w, a, b[..n]);
      assert (a + b)[..|a| + n] == a + b[..n];
    }
  }

  /** The bits of one more character follow the bits of the characters before it. */
  lemma HashBitsStep(hash: string, i: nat)
    requires i < |hash|
    ensures HashBits(hash[..i + 1]) == HashBits(hash[..i]) + Bits5(CharValue(hash[i]))
  {
    assert hash[..i + 1][..i] == hash[..i];
  }

  /** The decoder's walk is the replay of the same bits; its flag is set after an even number of them. */
  lemma {:induction false} FeedsReplay(bits: seq<bool>)
    ensures Feeds(Start, bits).lat == Replay(bits).lat
    ensures Feeds(Start, bits).lng == Replay(bits).lng
    ensures Feeds(Start, bits).even <==> |bits| % 2 == 0
    decreases |bits|
  {
    if bits != [] {
      var n := |bits| - 1;
      FeedsReplay(bits[..n]);
      assert n % 2 == 0 <==> |bits| % 2 != 0;
    }
  }

  // ---------------------------------------------------------------------------
  // Properties of the decoder
  // ---------------------------------------------------------------------------

  /** The empty hash decodes to the middle of the world, 0, 0. */
  lemma DecodeEmpty(k: Kernels)
    ensures Decode(k, GeoHash()) == LatLng(0.0, 0.0)
  {
    var p, q := k.hashDigits(180.0), k.hashDigits(360.0);
    assert Replay(HashBits("")) == World;
    assert Mid(World.lat) == 0.0 && Mid(World.lng) == 0.0;
    RoundHalfDownExact(0.0, p);
    RoundHalfDownExact(0.0, q);
  }

  /** The bits of a hash depend only on the alphabet indices of its characters. */
  lemma {:induction false} HashBitsByValues(a: string, b: string)
    requires |a| == |b|
    requires forall i :: 0 <= i < |a| ==> CharValue(a[i]) == CharValue(b[i])
    ensures HashBits(a) == HashBits(b)
    decreases |a|
  {
    if a != [] {
      var n := |a| - 1;
      HashBitsByValues(a[..n], b[..n]);
    }
  }

  /** Hashes whose characters have the same alphabet indices decode to the same point. */
  lemma DecodeByValues(k: Kernels, a: GeoHash, b: GeoHash)
    requires |a.hash| == |b.hash|
    requires forall i :: 0 <= i < |a.hash| ==> CharValue(a.hash[i]) == CharValue(b.hash[i])
    ensures Decode(k, a) == Decode(k, b)
  {
    HashBitsByValues(a.hash, b.hash);
  }

  /** A character outside the alphabet decodes exactly like the character '0' in its place. */
  lemma UnknownCharDecodesAsZero(k: Kernels, hash: string, i: nat, c: char)
    requires i < |hash| && c !in HashMap
    ensures Decode(k, GeoHash(hash[i := c])) == Decode(k, GeoHash(hash[i := '0']))
  {
    UnknownCharIsZero(c);
    CharValueOfIndex(0);
    DecodeByValues(k, GeoHash(hash[i := c]), GeoHash(hash[i := '0']));
  }

  /**
   * Encoding a point of the world and decoding the hash gives the point back up
   * to half the encoder's final box plus the rounding, half a unit of the last
   * kept decimal (ReplayWidths gives the box's size: 180 / 2^30 degrees of
   * latitude by 360 / 2^30 of longitude).
   */
  lemma EncodeDecode(k: Kernels, ll: LatLng)
    requires Inside(World, ll.latitude, ll.longitude)
    ensures var box := Replay(EncodeBits(ll.latitude, ll.longitude, 60));
      var d := Decode(k, GeoHash(LatLngToGeoHash.Encode(ll)));
      && Abs(d.latitude - ll.latitude) <= Width(box.lat) / 2.0 + HalfUnit(k.hashDigits(Width(box.lat)))
      && Abs(d.longitude - ll.longitude) <= Width(box.lng) / 2.0 + HalfUnit(k.hashDigits(Width(box.lng)))
  {
    EncodeDecodeBox(ll.latitude, ll.longitude);
    DecodeNear(k, GeoHash(LatLngToGeoHash.Encode(ll)), ll.latitude, ll.longitude);
  }

  /**
   * The decoded point is near every point of the hash's box: within half the box's
   * width plus the rounding on each axis.
   */
  lemma DecodeNear(k: Kernels, g: GeoHash, lat: real, lng: real)
    requires Inside(Replay(HashBits(g.hash)), lat, lng)
    ensures var box := Replay(HashBits(g.hash));
      var d := Decode(k, g);
      && Abs(d.latitude - lat) <= Width(box.lat) / 2.0 + HalfUnit(k.hashDigits(Width(box.lat)))
      && Abs(d.longitude - lng) <= Width(box.lng) / 2.0 + HalfUnit(k.hashDigits(Width(box.lng)))
  {
    var box := Replay(HashBits(g.hash));
    var p, q := k.hashDigits(Width(box.lat)), k.hashDigits(Width(box.lng));
    WithinHalf(box.lat, lat, Rounded(box.lat, p), HalfUnit(p));
    WithinHalf(box.lng, lng, Rounded(box.lng, q), HalfUnit(q));
  }

  /** A value of a closed interval is within half its width plus e of anything within e of its middle. */
  lemma WithinHalf(iv: Interval, v: real, r: real, e: real)
    requires iv.min <= v <= iv.max
    requires Abs(r - Mid(iv)) <= e
    ensures Abs(r - v) <= Width(iv) / 2.0 + e
  {
  }
}
