/**
 * Access points: the kind of a point and its normalisation, the status of a
 * point, a single point whose status is overwritten in place, and the
 * collection of points keyed by identifier (access-point-api/src/ap.rs).
 */
module Ap {

  // ---------------------------------------------------------------------
  // Kinds
  // ---------------------------------------------------------------------

  /** An unsimplified access-point kind: two fixed variants and a free-text fallback. */
  datatype RawAccessPointType = Wheelchair | Interpreter | Any(text: string)

  /** True for the characters that the Debug rendering of a string writes as a backslash escape. */
  predicate IsEscaped(c: char) {
    c == '\0' || c == '\t' || c == '\r' || c == '\n' || c == '\\' || c == '"'
  }

  /** The Debug rendering of one character inside a string literal. */
  function EscapeChar(c: char): (r: string)
    ensures |r| == if IsEscaped(c) then 2 else 1
    ensures r[0] == '\\' <==> IsEscaped(c)
    ensures !IsEscaped(c) ==> r == [c]
  {
    if c == '\0' then "\\0"
    else if c == '\t' then "\\t"
    else if c == '\r' then "\\r"
    else if c == '\n' then "\\n"
    else if c == '\\' then "\\\\"
    else if c == '"' then "\\\""
    else [c]
  }

  /** The Debug rendering of the contents of a string literal, character by character. */
  function Escape(s: string): (r: string)
    ensures |r| >= |s|
    ensures (forall i :: 0 <= i < |s| ==> !IsEscaped(s[i])) ==> r == s
    ensures |s| > 0 && IsEscaped(s[0]) ==> r[0] == '\\' && |r| > |s|
  {
    if s == [] then [] else EscapeChar(s[0]) + Escape(s[1..])
  }

  /** `Display` for a raw kind, which writes the derived `Debug` rendering. */
  function Display(t: RawAccessPointType): (r: string)
    ensures t == Wheelchair ==> r == "Wheelchair"
    ensures t == Interpreter ==> r == "Interpreter"
    ensures t.Any? ==> |r| == |Escape(t.text)| + 7 && r[..5] == "Any(\"" && r[5..|r| - 2] == Escape(t.text) && r[|r| - 2..] == "\")"
  {
    match t
    case Wheelchair => "Wheelchair"
    case Interpreter => "Interpreter"
    case Any(s) => "Any(\"" + Escape(s) + "\")"
  }

  /** Two escaped characters followed by anything are equal only if the two escapes are. */
  lemma EscapeCharPrefix(c: char, d: char, x: string, y: string)
    requires EscapeChar(c) + x == EscapeChar(d) + y
    ensures c == d && x == y
  {
    var ec, ed := EscapeChar(c), EscapeChar(d);
    assert (ec + x)[0] == ec[0] && (ed + y)[0] == ed[0];
    assert |ec| == |ed|;
    assert ec == (ec + x)[..|ec|] && ed == (ed + y)[..|ed|];
    assert x == (ec + x)[|ec|..] && y == (ed + y)[|ed|..];
  }

  /** The Debug rendering of a string determines the string. */
  lemma {:induction false} EscapeInjective(a: string, b: string)
    requires Escape(a) == Escape(b)
    ensures a == b
    decreases |a|
  {
    if a == [] || b == [] {
      assert |Escape(a)| == 0 && |Escape(b)| == 0;
    } else {
      EscapeCharPrefix(a[0], b[0], Escape(a[1..]), Escape(b[1..]));
      EscapeInjective(a[1..], b[1..]);
      assert a == [a[0]] + a[1..] && b == [b[0]] + b[1..];
    }
  }

  /** Distinct kinds have distinct display names. */
  lemma DisplayInjective(t: RawAccessPointType, u: RawAccessPointType)
    requires Display(t) == Display(u)
    ensures t == u
  {
    match t
    case Wheelchair =>
      assert Display(u)[0] == 'W';
    case Interpreter =>
      assert Display(u)[0] == 'I';
    case Any(a) =>
      assert Display(u)[0] == 'A';
      var b := u.text;
      var n, m := |Display(t)|, |Escape(a)|;
      assert Escape(a) == Display(t)[5..n - 2];
      assert Escape(b) == Display(u)[5..n - 2];
      EscapeInjective(a, b);
  }

  /** The kinds `EnumIter` yields, in declaration order; the open variant carries the empty string. */
  function Variants(): (vs: seq<RawAccessPointType>)
    ensures |vs| == 3
  {
    [Wheelchair, Interpreter, Any("")]
  }

  /** True when the text is the display name of one of the iterated kinds. */
  predicate NamesVariant(s: string) {
    exists i :: 0 <= i < |Variants()| && Display(Variants()[i]) == s
  }

  /**
   * Reference definition of `simplify`: a known kind is kept; free text is
   * replaced by the iterated kind whose display name it is, and kept otherwise.
   */
  function Simplified(t: RawAccessPointType): (r: RawAccessPointType) {
    match t
    case Any(s) =>
      if s == "Wheelchair" then Wheelchair
      else if s == "Interpreter" then Interpreter
      else if s == "Any(\"\")" then Any("")
      else t
    case _ => t
  }

  /** A kind is simplified when it is not free text naming one of the iterated kinds. */
  predicate IsSimplified(t: RawAccessPointType) {
    t.Any? ==> !NamesVariant(t.text)
  }

  /** The value of `result` in `simplify` after the loop has visited `vs`: the last match, else the free text. */
  ghost function LastMatch(s: string, vs: seq<RawAccessPointType>): RawAccessPointType {
    if vs == [] then Any(s)
    else if Display(vs[|vs| - 1]) == s then vs[|vs| - 1]
    else LastMatch(s, vs[..|vs| - 1])
  }

  /** The loop's last match over all variants is the reference simplification. */
  lemma LastMatchIsSimplified(s: string)
    ensures LastMatch(s, Variants()) == Simplified(Any(s))
  {
    var vs := Variants();
    assert Display(Any("")) == "Any(\"\")" by { assert Escape("") == ""; }
    assert vs[..2] == [Wheelchair, Interpreter] && vs[..2][..1] == [Wheelchair];
    assert [Wheelchair][..0] == [];
    var r1 := if s == "Wheelchair" then Wheelchair else Any(s);
    assert LastMatch(s, [Wheelchair]) == r1;
    var r2 := if s == "Interpreter" then Interpreter else r1;
    assert LastMatch(s, vs[..2]) == r2;
    assert LastMatch(s, vs) == if s == "Any(\"\")" then Any("") else r2;
  }

  /** `RawAccessPointType::simplify`: walk every variant; the last whose display name equals the text wins. */
  method Simplify(t: RawAccessPointType) returns (r: RawAccessPointType)
    ensures r == Simplified(t)
  {
    match t {
      case Any(s) =>
        var result := Any(s);
        var variants := Variants();
        for i := 0 to |variants|
          invariant result == LastMatch(s, variants[..i])
        {
          assert variants[..i + 1][..i] == variants[..i];
          if s == Display(variants[i]) {
            result := variants[i];
          }
        }
        assert variants[..|variants|] == variants;
        LastMatchIsSimplified(s);
        r := result;
      case _ =>
        r := t;
    }
  }

  /** The display names of the three iterated kinds, written out. */
  lemma VariantNames(s: string)
    ensures NamesVariant(s) <==> s == "Wheelchair" || s == "Interpreter" || s == "Any(\"\")"
  {
    assert Display(Any("")) == "Any(\"\")" by { assert Escape("") == ""; }
    if s == "Wheelchair" { assert Display(Variants()[0]) == s; }
    if s == "Interpreter" { assert Display(Variants()[1]) == s; }
    if s == "Any(\"\")" { assert Display(Variants()[2]) == s; }
  }

  /** `simplify` leaves a fixed kind as it is. */
  lemma SimplifyKeepsFixedKinds(t: RawAccessPointType)
    requires !t.Any?
    ensures Simplified(t) == t
  {
  }

  /** Free text equal to a variant's display name becomes that variant. */
  lemma SimplifyMatchesDisplayName(s: string, v: RawAccessPointType)
    requires v in Variants() && Display(v) == s
    ensures Simplified(Any(s)) == v
  {
    assert Display(Any("")) == "Any(\"\")" by { assert Escape("") == ""; }
  }

  /** Free text that names no variant is returned unchanged. */
  lemma SimplifyKeepsUnknownText(s: string)
    requires !NamesVariant(s)
    ensures Simplified(Any(s)) == Any(s)
  {
    VariantNames(s);
  }

  /**
   * As written, the text `Any("")` is the display name of the iterated open
   * variant, so free text spelling it is replaced by the empty free text.
   */
  lemma SimplifyRewritesOpenVariantName()
    ensures Simplified(Any("Any(\"\")")) == Any("")
    ensures Simplified(Any("Any(\"\")")) != Any("Any(\"\")")
  {
  }

  /** The result of `simplify` is simplified, and `simplify` fixes every simplified kind. */
  lemma SimplifiedIsSimplified(t: RawAccessPointType)
    ensures IsSimplified(Simplified(t))
    ensures IsSimplified(t) ==> Simplified(t) == t
  {
    var r := Simplified(t);
    if r.Any? { VariantNames(r.text); }
    if t.Any? { VariantNames(t.text); }
  }

  /** `simplify` is idempotent. */
  lemma SimplifyIdempotent(t: RawAccessPointType)
    ensures Simplified(Simplified(t)) == Simplified(t)
  {
    SimplifiedIsSimplified(t);
    SimplifiedIsSimplified(Simplified(t));
  }

  /** `AccessPointType`: a kind guaranteed to be simplified. */
  type AccessPointType = t: RawAccessPointType | IsSimplified(t) witness Wheelchair

  // ---------------------------------------------------------------------
  // Status
  // ---------------------------------------------------------------------

  /** The operational status of an access point. */
  datatype AccessPointStatus = Working | InRepair | NotWorking

  /** `AccessPointStatus::default()`. */
  function DefaultStatus(): (s: AccessPointStatus)
    ensures s == NotWorking
  {
    NotWorking
  }

  // ---------------------------------------------------------------------
  // One access point and the collection of them
  // ---------------------------------------------------------------------

  /** The geocoded location of a point, from an external geocoding service; nothing is known of it. */
  type Geocoding(==)

  /** `APID`, a `usize` on a 64-bit target. */
  type APID = n: nat | n < 0x1_0000_0000_0000_0000

  /** The value held by an access point at one moment. */
  datatype PointRecord = PointRecord(kind: AccessPointType, location: Geocoding, status: AccessPointStatus)

  /** `AccessPoint`: a kind, a location and a status that is overwritten in place. */
  class AccessPoint {
    var kind: AccessPointType
    var location: Geocoding
    var status: AccessPointStatus

    /** The point's current value. */
    function Record(): PointRecord
      reads this
    {
      PointRecord(kind, location, status)
    }

    /** A point with the given fields (a struct literal). */
    constructor (kind: AccessPointType, location: Geocoding, status: AccessPointStatus)
      ensures Record() == PointRecord(kind, location, status)
    {
      this.kind := kind;
      this.location := location;
      this.status := status;
    }

    /** `set_status`: overwrite the status; kind and location are unchanged. */
    method SetStatus(status: AccessPointStatus)
      modifies this
      ensures this.status == status
      ensures Record() == old(Record()).(status := status)
    {
      this.status := status;
    }
  }

  /** `AccessPoints`: the points keyed by identifier. */
  class AccessPoints {
    var points: map<APID, AccessPoint>

    /** Each point is owned by exactly one entry: distinct identifiers hold distinct objects. */
    ghost predicate Valid()
      reads this
    {
      forall i, j :: i in points && j in points && i != j ==> points[i] != points[j]
    }

    /** The value of the collection: each identifier with its point's current record. */
    function Records(): (m: map<APID, PointRecord>)
      reads this, points.Values
      ensures m.Keys == points.Keys
    {
      map id | id in points :: points[id].Record()
    }

    /** An empty collection. */
    constructor ()
      ensures Valid() && points == map[]
    {
      points := map[];
    }
  }
}
