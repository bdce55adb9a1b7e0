/**
 * A two-dimensional vector over integer coordinates, with its constructors,
 * its component-wise operators, its dot and cross products, its equality and
 * its `[x, y]` text.
 *
 * Every operator and product takes its operands by value and returns a new
 * vector or a scalar, and `Display` only reads its vector, so each one is a
 * function. The lemmas below state the algebra the
 * definitions give: identities, inverses, distributivity, symmetry of the
 * products, and the round trip between `Display` and its parser.
 */
module Vectors {
  import opened Wrappers
  import opened Coord
  import opened Decimal

  datatype Vector = Vector(x: int, y: int)

  /** The derived `Default`: the default value of an integer coordinate is zero. */
  function Default(): Vector
  {
    Vector(0, 0)
  }

  function WithCoords(x: int, y: int): Vector
  {
    Vector(x, y)
  }

  /** The unit vector along the horizontal axis. */
  function IHat(): Vector
  {
    WithCoords(1, 0)
  }

  /** The unit vector along the vertical axis. */
  function JHat(): Vector
  {
    WithCoords(0, 1)
  }

  function Dot(v: Vector, w: Vector): int
  {
    v.x * w.x + v.y * w.y
  }

  /** The z-component of the cross product of `v` and `w` placed in the plane z = 0. */
  function Cross(v: Vector, w: Vector): int
  {
    v.x * w.y - w.x * v.y
  }

  function Neg(v: Vector): Vector
  {
    WithCoords(-v.x, -v.y)
  }

  function Add(v: Vector, w: Vector): Vector
  {
    WithCoords(v.x + w.x, v.y + w.y)
  }

  function Sub(v: Vector, w: Vector): Vector
  {
    WithCoords(v.x - w.x, v.y - w.y)
  }

  function Mul(v: Vector, scalar: int): Vector
  {
    WithCoords(v.x * scalar, v.y * scalar)
  }

  /**
   * Division by a scalar, with Rust's integer division on each coordinate:
   * each quotient is rounded toward zero. Rust panics on a zero divisor.
   */
  function Div(v: Vector, scalar: int): (r: Vector)
    requires scalar != 0
    ensures IsTruncQuotient(v.x, scalar, r.x) && IsTruncQuotient(v.y, scalar, r.y)
  {
    WithCoords(TruncDiv(v.x, scalar), TruncDiv(v.y, scalar))
  }

  /** The derived `PartialEq`, which compares the coordinates pairwise. */
  function Eq(v: Vector, w: Vector): (b: bool)
    ensures b <==> v == w
  {
    v.x == w.x && v.y == w.y
  }

  /** The `!=` that the derived `PartialEq` provides. */
  function Ne(v: Vector, w: Vector): (b: bool)
    ensures b <==> v != w
  {
    !Eq(v, w)
  }

  /** The `Display` text `[x, y]`, each coordinate in decimal. */
  function Display(v: Vector): string
  {
    "[" + IntToString(v.x) + ", " + IntToString(v.y) + "]"
  }

  // ---------------------------------------------------------------------
  // The inverse of Display

  /** The first position of `c` in `s`, if `c` occurs in `s`. */
  function IndexOf(s: string, c: char): (r: Option<nat>)
    ensures r.Some? ==> r.value < |s| && s[r.value] == c
    ensures r.Some? ==> forall j :: 0 <= j < r.value ==> s[j] != c
    ensures r.None? ==> forall j :: 0 <= j < |s| ==> s[j] != c
  {
    if s == [] then None
    else if s[0] == c then Some(0)
    else match IndexOf(s[1..], c)
      case Some(k) => Some(k + 1)
      case None => None
  }

  /** The vector whose `Display` text is `s`, if there is one. */
  function ParseDisplay(s: string): Option<Vector>
  {
    if |s| < 2 || s[0] != '[' || s[|s| - 1] != ']' then None
    else
      var inner := s[1..|s| - 1];
      match IndexOf(inner, ',')
      case None => None
      case Some(k) =>
        if k + 1 < |inner| && inner[k + 1] == ' ' then
          match (ParseInt(inner[..k]), ParseInt(inner[k + 2..]))
          case (Some(x), Some(y)) => Some(Vector(x, y))
          case _ => None
        else None
  }

  // ---------------------------------------------------------------------
  // Construction and equality

  /** `WithCoords` stores exactly the coordinates it is given. */
  lemma WithCoordsStores(x: int, y: int)
    ensures WithCoords(x, y).x == x && WithCoords(x, y).y == y
  {
  }

  /** Two vectors built from coordinates are equal exactly when the coordinates are. */
  lemma WithCoordsInjective(x: int, y: int, x': int, y': int)
    ensures Eq(WithCoords(x, y), WithCoords(x', y')) <==> x == x' && y == y'
  {
  }

  /** Equality is reflexive, symmetric and transitive. */
  lemma EqIsEquivalence(u: Vector, v: Vector, w: Vector)
    ensures Eq(v, v)
    ensures Eq(v, w) == Eq(w, v)
    ensures Eq(u, v) && Eq(v, w) ==> Eq(u, w)
  {
  }

  lemma EqExamples()
    ensures Eq(WithCoords(42, 42), WithCoords(42, 42))
    ensures !Eq(WithCoords(42, 0), WithCoords(-1, -1)) && Ne(WithCoords(42, 0), WithCoords(-1, -1))
  {
  }

  /** The default vector has zero coordinates, so it is the identity of addition. */
  lemma DefaultIsZero(v: Vector)
    ensures Default().x == 0 && Default().y == 0
    ensures Add(v, Default()) == v && Add(Default(), v) == v
  {
  }

  /** No other vector is an identity of addition for any vector. */
  lemma DefaultIsOnlyIdentity(v: Vector, z: Vector)
    requires Add(v, z) == v
    ensures z == Default()
  {
  }

  // ---------------------------------------------------------------------
  // Unit vectors

  lemma UnitVectors()
    ensures IHat() == WithCoords(1, 0) && JHat() == WithCoords(0, 1)
    ensures Cross(IHat(), JHat()) == 1 && Dot(IHat(), JHat()) == 0
  {
  }

  /** Dotting with a unit vector picks out the matching coordinate. */
  lemma DotWithUnitVectors(v: Vector)
    ensures Dot(IHat(), v) == v.x && Dot(v, IHat()) == v.x
    ensures Dot(JHat(), v) == v.y && Dot(v, JHat()) == v.y
  {
  }

  /** Every vector is its x times `IHat` plus its y times `JHat`. */
  lemma UnitVectorsSpan(v: Vector)
    ensures v == Add(Mul(IHat(), v.x), Mul(JHat(), v.y))
  {
  }

  lemma DotExample()
    ensures Dot(WithCoords(1, 0), WithCoords(42, 42)) == 42
  {
  }

  // ---------------------------------------------------------------------
  // Negation, addition and subtraction

  lemma NegExample()
    ensures Neg(WithCoords(42, 42)) == WithCoords(-42, -42)
  {
  }

  /** Negating twice gives back the vector. */
  lemma NegInvolution(v: Vector)
    ensures Neg(Neg(v)) == v
  {
  }

  /** A vector plus its negation is the default (zero) vector. */
  lemma NegCancels(v: Vector)
    ensures Add(v, Neg(v)) == Default() && Add(Neg(v), v) == Default()
  {
  }

  /** Negation is multiplication by -1. */
  lemma NegIsMulMinusOne(v: Vector)
    ensures Neg(v) == Mul(v, -1)
  {
  }

  lemma AddExample()
    ensures Add(WithCoords(42, 0), WithCoords(0, 42)) == WithCoords(42, 42)
  {
  }

  lemma SubExample()
    ensures Sub(WithCoords(42, 0), WithCoords(0, 42)) == WithCoords(42, -42)
  {
  }

  lemma AddCommutative(v: Vector, w: Vector)
    ensures Add(v, w) == Add(w, v)
  {
  }

  lemma AddAssociative(u: Vector, v: Vector, w: Vector)
    ensures Add(Add(u, v), w) == Add(u, Add(v, w))
  {
  }

  /** Subtracting is adding the negation. */
  lemma SubIsAddNeg(v: Vector, w: Vector)
    ensures Sub(v, w) == Add(v, Neg(w))
  {
  }

  /** Subtraction undoes addition and addition undoes subtraction. */
  lemma SubUndoesAdd(v: Vector, w: Vector)
    ensures Sub(Add(v, w), w) == v
    ensures Add(Sub(v, w), w) == v
  {
  }

  // ---------------------------------------------------------------------
  // Multiplication and division by a scalar

  lemma MulExample()
    ensures Mul(WithCoords(21, 12), 2) == WithCoords(42, 24)
  {
  }

  /** Multiplication by a scalar distributes over the addition of vectors. */
  lemma MulDistributesOverAdd(v: Vector, w: Vector, s: int)
    ensures Mul(Add(v, w), s) == Add(Mul(v, s), Mul(w, s))
  {
  }

  /** Multiplication by a scalar distributes over the addition of scalars. */
  lemma MulDistributesOverScalarAdd(v: Vector, s: int, t: int)
    ensures Mul(v, s + t) == Add(Mul(v, s), Mul(v, t))
  {
  }

  lemma MulIdentities(v: Vector)
    ensures Mul(v, 1) == v && Mul(v, 0) == Default()
  {
  }

  lemma DivExamples()
    ensures Div(WithCoords(42, 24), 2) == WithCoords(21, 12)
    ensures Div(WithCoords(41, 24), 2) == WithCoords(20, 12)
    ensures Div(WithCoords(-41, 24), 2) == WithCoords(-20, 12)
  {
    TruncDivExamples();
  }

  /** Dividing by the scalar a vector was multiplied by gives back the vector. */
  lemma DivUndoesMul(v: Vector, s: int)
    requires s != 0
    ensures Div(Mul(v, s), s) == v
  {
    TruncDivOfMultiple(v.x, s);
    TruncDivOfMultiple(v.y, s);
  }

  /** Division by 1 changes nothing and division by -1 negates. */
  lemma DivByUnit(v: Vector)
    ensures Div(v, 1) == v && Div(v, -1) == Neg(v)
  {
    DivUndoesMul(v, 1);
    TruncDivOfNegation(v.x, -1);
    TruncDivOfNegation(v.y, -1);
    DivUndoesMul(Neg(v), -1);
  }

  /** Division rounds toward zero, so it commutes with negation. */
  lemma DivNeg(v: Vector, s: int)
    requires s != 0
    ensures Div(Neg(v), s) == Neg(Div(v, s))
  {
    TruncDivOfNegation(v.x, s);
    TruncDivOfNegation(v.y, s);
  }

  // ---------------------------------------------------------------------
  // Dot and cross products

  lemma CrossExample()
    ensures Cross(WithCoords(42, 2), WithCoords(3, 1)) == 36
  {
  }

  lemma DotSymmetric(v: Vector, w: Vector)
    ensures Dot(v, w) == Dot(w, v)
  {
  }

  /** The dot product is linear in its first argument (and, by symmetry, its second). */
  lemma DotLinear(u: Vector, v: Vector, w: Vector, s: int)
    ensures Dot(Add(u, v), w) == Dot(u, w) + Dot(v, w)
    ensures Dot(Mul(v, s), w) == s * Dot(v, w)
  {
  }

  lemma CrossAntiSymmetric(v: Vector, w: Vector)
    ensures Cross(v, w) == -Cross(w, v)
  {
  }

  /** A vector is parallel to itself and to every multiple of itself. */
  lemma CrossParallel(v: Vector, s: int)
    ensures Cross(v, v) == 0
    ensures Cross(v, Mul(v, s)) == 0
  {
  }

  /** The cross product is linear in its first argument (and, by anti-symmetry, its second). */
  lemma CrossLinear(u: Vector, v: Vector, w: Vector, s: int)
    ensures Cross(Add(u, v), w) == Cross(u, w) + Cross(v, w)
    ensures Cross(Mul(v, s), w) == s * Cross(v, w)
  {
  }

  // ---------------------------------------------------------------------
  // Display

  lemma DisplayExample()
    ensures Display(WithCoords(-42, 0)) == "[-42, 0]"
  {
    IntToStringExamples();
  }

  /** Parsing the text of a vector gives back the vector. */
  lemma ParseDisplayOfDisplay(v: Vector)
    ensures ParseDisplay(Display(v)) == Some(v)
  {
    SplitText(IntToString(v.x), IntToString(v.y));
    ParseIntToString(v.x);
    ParseIntToString(v.y);
  }

  /**
   * In `[a, b]`, where `a` holds no comma, the first comma inside the brackets
   * follows `a`, and the parts around `", "` are `a` and `b`.
   */
  lemma SplitText(a: string, b: string)
    requires forall k :: 0 <= k < |a| ==> a[k] != ','
    ensures var s := "[" + a + ", " + b + "]"; var inner := s[1..|s| - 1];
      && |s| >= 2 && s[0] == '[' && s[|s| - 1] == ']'
      && IndexOf(inner, ',') == Some(|a|) && |a| + 1 < |inner| && inner[|a| + 1] == ' '
      && inner[..|a|] == a && inner[|a| + 2..] == b
  {
    var s := "[" + a + ", " + b + "]";
    var inner := s[1..|s| - 1];
    assert inner == a + (", " + b);
    FirstCommaAfter(a, ", " + b);
  }

  /** When `a` holds no comma and `rest` starts with one, the first comma of `a + rest` follows `a`. */
  lemma FirstCommaAfter(a: string, rest: string)
    requires forall k :: 0 <= k < |a| ==> a[k] != ','
    requires |rest| > 0 && rest[0] == ','
    ensures IndexOf(a + rest, ',') == Some(|a|)
  {
    assert (a + rest)[|a|] == ',';
  }

  /** A string that parses is the text of the vector it parses to. */
  lemma DisplayOfParseDisplay(s: string, v: Vector)
    requires ParseDisplay(s) == Some(v)
    ensures Display(v) == s
  {
    assert |s| >= 2 && s[0] == '[' && s[|s| - 1] == ']';
    var inner := s[1..|s| - 1];
    var k := IndexOf(inner, ',').value;
    assert k + 1 < |inner| && inner[k + 1] == ' ';
    assert ParseInt(inner[..k]) == Some(v.x) && ParseInt(inner[k + 2..]) == Some(v.y);
    IntToStringOfParse(inner[..k], v.x);
    IntToStringOfParse(inner[k + 2..], v.y);
    Reassemble(s, k);
  }

  /** A bracketed text with `", "` at `k` is its two sides joined by `", "` between brackets. */
  lemma Reassemble(s: string, k: nat)
    requires |s| >= 2 && s[0] == '[' && s[|s| - 1] == ']'
    requires k + 1 < |s| - 2 && s[k + 1] == ',' && s[k + 2] == ' '
    ensures s == "[" + s[1..|s| - 1][..k] + ", " + s[1..|s| - 1][k + 2..] + "]"
  {
    var inner := s[1..|s| - 1];
    assert inner == inner[..k] + ", " + inner[k + 2..];
    assert s == "[" + inner + "]";
  }

  /** Distinct vectors have distinct texts. */
  lemma DisplayInjective(v: Vector, w: Vector)
    requires Display(v) == Display(w)
    ensures v == w
  {
    ParseDisplayOfDisplay(v);
    ParseDisplayOfDisplay(w);
  }
}
