/**
 * The output formats a coordinate can be converted to or rendered in.
 *
 * The enumeration declares three cases, DMS, DDM and UTM, each backed by a string
 * equal to its own name. The value objects also dispatch on a fourth format,
 * LatLng (plain decimal degrees), which the enumeration refers to but does not
 * declare; the model adds it as a fourth constructor and keeps the declared
 * cases apart as the subset type `Declared`.
 */
module CoordinateFormat {

  datatype Format = DMS | DDM | UTM | LatLng

  /** The cases the enumeration declares. */
  type Declared = f: Format | f != LatLng witness DMS

  /** The declared cases, in declaration order (`cases()`). */
  function Cases(): (cs: seq<Declared>)
    ensures |cs| == 3
    ensures forall f: Declared :: f in cs
    ensures forall i, j :: 0 <= i < j < |cs| ==> cs[i] != cs[j]
  {
    [DMS, DDM, UTM]
  }

  /** The backing string of a case: the case's own name. */
  function Value(f: Declared): (v: string)
    ensures |v| == 3
  {
    match f
    case DMS => "DMS"
    case DDM => "DDM"
    case UTM => "UTM"
  }

  /** The backing strings of all cases, in declaration order (`values()`). */
  function Values(): (vs: seq<string>)
    ensures |vs| == 3
    ensures forall f: Declared :: Value(f) in vs
    ensures forall i, j :: 0 <= i < j < |vs| ==> vs[i] != vs[j]
  {
    var vs := seq(|Cases()|, i requires 0 <= i < |Cases()| => Value(Cases()[i]));
    assert vs[0] == Value(DMS) && vs[1] == Value(DDM) && vs[2] == Value(UTM);
    vs
  }

  /** The human-readable name of a case (`toString()`). */
  function Name(f: Declared): (s: string)
    ensures |s| > 0
  {
    match f
    case DMS => "Degrees Minutes Seconds"
    case DDM => "Degrees Decimal Minutes"
    case UTM => "Universal Transverse Mercator"
  }

  /** `values()` lists exactly the three names, in declaration order. */
  lemma ValuesInOrder()
    ensures Values() == ["DMS", "DDM", "UTM"]
  {
    var vs := Values();
    assert vs[0] == "DMS" && vs[1] == "DDM" && vs[2] == "UTM";
  }

  /** Distinct cases have distinct backing strings, so a value identifies its case. */
  lemma ValueInjective(f: Declared, g: Declared)
    ensures Value(f) == Value(g) <==> f == g
  {
  }

  /** Distinct cases have distinct names. */
  lemma NameInjective(f: Declared, g: Declared)
    ensures Name(f) == Name(g) <==> f == g
  {
    if f != g {
      assert Name(f)[9] != Name(g)[9] || Name(f)[0] != Name(g)[0];
    }
  }
}
