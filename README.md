# A verified model of the comgeo `Vector<T>` type

The repository defines one value type, a two-dimensional vector `Vector<T>`
whose coordinates `x` and `y` are of any signed, copyable numeric type. It has
a derived `Default` (the zero vector) and derived equality. It has the
constructors `with_coords`, `i_hat` and `j_hat`, and the operators negation,
addition, subtraction, and multiplication and division by a scalar. It also
has the dot product and the 2-D cross product, and a `Display` text of the
form `[x, y]`. Every operator and product takes its operands by value and
returns a new value, and `Display` only reads its vector, so the model is a
datatype with functions and lemmas about them.

The coordinate type is the mathematical integers. The files are:

- `wrappers.dfy`: `Option`, used by the parsers.
- `coord.dfy` (module `Coord`): the coordinate operators that differ from
  Dafny's. This is only integer division. Rust's `/` rounds toward zero, and
  Dafny's is Euclidean. `TruncDiv` is Rust's operator.
  `IsTruncQuotient` describes the same quotient without computing it: the
  remainder is smaller than the divisor and has the sign of the dividend.
- `decimal.dfy` (module `Decimal`): the decimal text Rust's `Display` gives
  an integer (`IntToString`). It comes with a strict parser `ParseInt`. The
  parser accepts exactly the texts `IntToString` produces, so the round trip
  between the two says what the rendering means.
- `vectors.dfy` (module `Vectors`): the `Vector` datatype and its operations,
  named after the source (`Default`, `WithCoords`, `IHat`, `JHat`, `Dot`,
  `Cross`, `Neg`, `Add`, `Sub`, `Mul`, `Div`, `Eq`, `Ne`, `Display`). It also
  holds the lemmas about them and `ParseDisplay`, the inverse of `Display`.

`ParseInt` and `ParseDisplay` are not part of the source. They are reference
definitions that let the model prove `Display` loses no information.

## Model

| member | source | states |
|---|---|---|
| Coord.TruncDiv | src/vectors.rs:98-100 | each coordinate quotient of `/` is rounded toward zero: the remainder is smaller than the divisor in magnitude and is zero or has the sign of the dividend |
| Coord.TruncQuotientUnique | src/vectors.rs:98-100 | exactly one quotient meets that description, and `TruncDiv` computes it |
| Coord.TruncDivOfMultiple | src/vectors.rs:98-100 | dividing `a * b` by `b` gives exactly `a` |
| Coord.TruncDivOfNegation | src/vectors.rs:98-100 | dividing `-a` gives the negation of dividing `a`, which Euclidean division does not do |
| Coord.TruncDivAgreesWithEuclidean | src/vectors.rs:98-100 | for a nonnegative dividend and a positive divisor, Rust's and Dafny's divisions agree |
| Coord.TruncDivExamples | src/vectors.rs:180-190 | 42/2 = 21, 41/2 = 20, 24/2 = 12, and -41/2 = -20 where Euclidean division gives -21 |
| Decimal.NatToString | src/vectors.rs:44 | the digits of a natural number are nonempty, all decimal, have no leading zero, and denote the number |
| Decimal.IntToString | src/vectors.rs:44 | an integer's text is nonempty, starts with `-` exactly when the integer is negative, and is digits after that first character; those digits denote the integer's magnitude |
| Decimal.NatToStringOfValue | src/vectors.rs:44 | every canonical digit string is the text of the number it denotes |
| Decimal.ParseIntToString | src/vectors.rs:44 | parsing an integer's text gives back the integer |
| Decimal.IntToStringOfParse | src/vectors.rs:44 | a string that parses to `i` is exactly the text of `i` |
| Decimal.IntToStringInjective | src/vectors.rs:44 | distinct integers have distinct texts |
| Decimal.IntToStringExamples | src/vectors.rs:133-137 | -42, 0 and 42 are written `-42`, `0` and `42` |
| Vectors.Default | src/vectors.rs:5 | the derived `Default`; `DefaultIsZero` states that it is (0, 0) and the identity of addition, and `DefaultIsOnlyIdentity` states that no other vector is |
| Vectors.WithCoords | src/vectors.rs:18-20 | `with_coords`; `WithCoordsStores` states that it keeps exactly the given coordinates, and `WithCoordsInjective` that distinct coordinates give distinct vectors |
| Vectors.IHat | src/vectors.rs:22-24 | `i_hat`; `UnitVectors`, `DotWithUnitVectors` and `UnitVectorsSpan` state that it is (1, 0), picks out x under the dot product, and spans the x axis |
| Vectors.JHat | src/vectors.rs:26-28 | `j_hat`; `UnitVectors`, `DotWithUnitVectors` and `UnitVectorsSpan` state that it is (0, 1), picks out y under the dot product, and spans the y axis |
| Vectors.Dot | src/vectors.rs:30-32 | `dot`; `DotSymmetric`, `DotLinear`, `DotWithUnitVectors` and `DotExample` state its symmetry, its linearity and its values |
| Vectors.Cross | src/vectors.rs:34-36 | `cross`; `CrossAntiSymmetric`, `CrossParallel`, `CrossLinear` and `CrossExample` state its anti-symmetry, its zero on parallel vectors, its linearity and its values |
| Vectors.Display | src/vectors.rs:43-45 | `Display::fmt`; `ParseDisplayOfDisplay` and `DisplayOfParseDisplay` state that `ParseDisplay` inverts it exactly, `DisplayInjective` that it loses no information, and `DisplayExample` its text for (-42, 0) |
| Vectors.Neg | src/vectors.rs:54-56 | `neg`; `NegInvolution`, `NegCancels` and `NegIsMulMinusOne` state that it is an involution, the additive inverse, and multiplication by -1 |
| Vectors.Add | src/vectors.rs:65-67 | `add`; `AddCommutative`, `AddAssociative`, `DefaultIsZero` and `AddExample` state that it is commutative and associative with the default vector as identity |
| Vectors.Sub | src/vectors.rs:76-78 | `sub`; `SubIsAddNeg` and `SubUndoesAdd` state that it is adding the negation and that it undoes addition |
| Vectors.Mul | src/vectors.rs:87-89 | `mul`; `MulDistributesOverAdd`, `MulDistributesOverScalarAdd`, `MulIdentities` and `DivUndoesMul` state its distributivity, its identities and that `Div` undoes it |
| Vectors.WithCoordsStores | src/vectors.rs:18-20 | `with_coords(x, y)` stores exactly `x` and `y` |
| Vectors.WithCoordsInjective | src/vectors.rs:5-12 | two vectors built from coordinates are equal exactly when both pairs of coordinates are |
| Vectors.Eq | src/vectors.rs:5 | the derived `==` holds exactly when the two vectors are the same value, that is both coordinates are equal |
| Vectors.Ne | src/vectors.rs:5 | the derived `!=` holds exactly when the two vectors differ |
| Vectors.EqIsEquivalence | src/vectors.rs:5 | equality is reflexive, symmetric and transitive |
| Vectors.EqExamples | src/vectors.rs:139-152 | (42,42) == (42,42); (42,0) and (-1,-1) are not equal and are `!=` |
| Vectors.DefaultIsZero | src/vectors.rs:107-112 | the default vector is (0, 0), and adding it on either side leaves any vector unchanged |
| Vectors.DefaultIsOnlyIdentity | src/vectors.rs:5 | a vector that leaves some vector unchanged when added to it is the default vector |
| Vectors.UnitVectors | src/vectors.rs:22-28 | `i_hat` is (1, 0) and `j_hat` is (0, 1); they are orthogonal, and their cross product is 1 |
| Vectors.DotWithUnitVectors | src/vectors.rs:30-32 | dotting with `i_hat` on either side gives x, and with `j_hat` gives y |
| Vectors.UnitVectorsSpan | src/vectors.rs:22-28 | every vector is `i_hat * x + j_hat * y` |
| Vectors.DotExample | src/vectors.rs:193-197 | (1,0) · (42,42) = 42 |
| Vectors.NegExample | src/vectors.rs:154-158 | -(42,42) = (-42,-42) |
| Vectors.NegInvolution | src/vectors.rs:54-56 | negating twice gives back the vector |
| Vectors.NegCancels | src/vectors.rs:54-56 | a vector plus its negation, in either order, is the default vector |
| Vectors.NegIsMulMinusOne | src/vectors.rs:54-56 | negation is multiplication by -1 |
| Vectors.AddExample | src/vectors.rs:160-165 | (42,0) + (0,42) = (42,42) |
| Vectors.SubExample | src/vectors.rs:167-172 | (42,0) - (0,42) = (42,-42) |
| Vectors.AddCommutative | src/vectors.rs:65-67 | addition is commutative |
| Vectors.AddAssociative | src/vectors.rs:65-67 | addition is associative |
| Vectors.SubIsAddNeg | src/vectors.rs:76-78 | `v - w` is `v + (-w)` |
| Vectors.SubUndoesAdd | src/vectors.rs:76-78 | `(v + w) - w` is `v` and `(v - w) + w` is `v` |
| Vectors.MulExample | src/vectors.rs:174-178 | (21,12) * 2 = (42,24) |
| Vectors.MulDistributesOverAdd | src/vectors.rs:87-89 | `(v + w) * s` is `v * s + w * s` |
| Vectors.MulDistributesOverScalarAdd | src/vectors.rs:87-89 | `v * (s + t)` is `v * s + v * t` |
| Vectors.MulIdentities | src/vectors.rs:87-89 | multiplying by 1 changes nothing and multiplying by 0 gives the default vector |
| Vectors.Div | src/vectors.rs:92-101 | each coordinate of `v / s` is the coordinate's quotient by `s` rounded toward zero; `s` must be nonzero |
| Vectors.DivExamples | src/vectors.rs:180-190 | (42,24)/2 = (21,12), (41,24)/2 = (20,12) and (-41,24)/2 = (-20,12) |
| Vectors.DivUndoesMul | src/vectors.rs:98-100 | `(v * s) / s` is `v` for every nonzero `s` |
| Vectors.DivByUnit | src/vectors.rs:98-100 | dividing by 1 changes nothing and dividing by -1 negates |
| Vectors.DivNeg | src/vectors.rs:98-100 | `(-v) / s` is `-(v / s)` |
| Vectors.CrossExample | src/vectors.rs:199-204 | (42,2) × (3,1) = 36 |
| Vectors.DotSymmetric | src/vectors.rs:30-32 | the dot product is symmetric |
| Vectors.DotLinear | src/vectors.rs:30-32 | the dot product is additive and homogeneous in its first argument |
| Vectors.CrossAntiSymmetric | src/vectors.rs:34-36 | swapping the operands of the cross product negates it |
| Vectors.CrossParallel | src/vectors.rs:34-36 | the cross product of a vector with itself or with any multiple of itself is 0 |
| Vectors.CrossLinear | src/vectors.rs:34-36 | the cross product is additive and homogeneous in its first argument |
| Vectors.DisplayExample | src/vectors.rs:133-137 | (-42, 0) is written `[-42, 0]` |
| Vectors.ParseDisplayOfDisplay | src/vectors.rs:43-45 | parsing a vector's `[x, y]` text gives back the vector |
| Vectors.DisplayOfParseDisplay | src/vectors.rs:43-45 | a string that parses to `v` is exactly the `[x, y]` text of `v` |
| Vectors.DisplayInjective | src/vectors.rs:43-45 | distinct vectors have distinct texts |

## Left out

- src/meta.rs is not part of this model. Its `Coord` trait only groups the `num_traits` signed-number capabilities; the model fixes the coordinate type to `int`.
- Floating-point coordinates (`f32`, `f64`) are not modelled: only exact integer arithmetic is.
- Fixed-width overflow of `i32` and the other integer types is not modelled; all arithmetic here is unbounded. In Rust, an overflowing `/` panics in every build profile: `i32::MIN / -1` in `div` is one such case. Overflow in `+`, `-`, `*` and unary `-` panics in debug builds and wraps in release builds: `-i32::MIN` in `neg` is one such case.
- Vectors.Div: a zero divisor, on which Rust's integer division panics, is excluded by `requires scalar != 0` rather than modelled as a failure.
- The `fmt::Formatter` plumbing and `fmt::Result` of `Display::fmt` are not modelled: only the text written is.
- The derived `Debug` output and Rust's ownership and move semantics carry no behaviour and are not modelled.
