/** The `Either<L, R>` sum type of de.scravy.either.Either.

  The Java class is an abstract base with a private constructor and exactly
  two final nested subclasses, `Left` and `Right`, each holding one Lombok
  `@Value` field. That closed hierarchy is a two-constructor datatype here.

  Calls that can throw are modelled as functions returning a `Call<T>`:
  either the value the Java method returns or the exception it throws.

  The discriminators `IsLeft`/`IsRight` follow the code as written, which
  differs from what the package's usage example and the method names evidently
  intend: `Right` overrides `isLeft()` to return true, and no variant
  overrides `isRight()`. The evidently intended discriminators are
  `IsLeftIntended`/`IsRightIntended`, and the lemmas at the end of this module
  relate the two.
 */
module Either {

  /** A value that is a `Left` holding an `L` or a `Right` holding an `R`. */
  datatype Either<L, R> = Left(left: L) | Right(right: R)

  /** The only exception the accessors throw. */
  datatype Exception = UnsupportedOperationException

  /** The outcome of a Java call: the value it returned, or the exception it threw. */
  datatype Call<T> = Returned(value: T) | Threw(exception: Exception)

  /** `Either.left(value)`: wraps `value` as a `Left`; `getLeft()` gives it back. */
  function MakeLeft<L, R>(value: L): (e: Either<L, R>)
    ensures IsLeftIntended(e) && !IsRightIntended(e)
    ensures GetLeft(e) == Returned(value)
    ensures GetRight(e) == Threw(UnsupportedOperationException)
  {
    Left(value)
  }

  /** `Either.right(value)`: wraps `value` as a `Right`; `getRight()` gives it back. */
  function MakeRight<L, R>(value: R): (e: Either<L, R>)
    ensures IsRightIntended(e) && !IsLeftIntended(e)
    ensures GetRight(e) == Returned(value)
    ensures GetLeft(e) == Threw(UnsupportedOperationException)
  {
    Right(value)
  }

  /** `isLeft()` as written: `Left` overrides it to return true, and so does
      `Right`. The base method's `false` is therefore never reached. */
  function IsLeft<L, R>(e: Either<L, R>): (b: bool)
    ensures e.Left? ==> b
  {
    match e
    case Left(_) => true
    case Right(_) => true
  }

  /** `isRight()` as written: only the base method exists, and it returns false. */
  function IsRight<L, R>(e: Either<L, R>): (b: bool)
    ensures e.Left? ==> !b
  {
    false
  }

  /** `getLeft()`: the Lombok getter of `Left.left` on a `Left`; on a `Right`
      the inherited base method, which throws. What it throws is always
      `UnsupportedOperationException`, the only `Exception` there is. */
  function GetLeft<L, R>(e: Either<L, R>): (r: Call<L>)
    ensures r.Returned? <==> e.Left?
    ensures r.Returned? ==> e == Left(r.value)
  {
    match e
    case Left(v) => Returned(v)
    case Right(_) => Threw(UnsupportedOperationException)
  }

  /** `getRight()`: the Lombok getter of `Right.right` on a `Right`; on a `Left`
      the inherited base method, which throws `UnsupportedOperationException`. */
  function GetRight<L, R>(e: Either<L, R>): (r: Call<R>)
    ensures r.Returned? <==> e.Right?
    ensures r.Returned? ==> e == Right(r.value)
  {
    match e
    case Left(_) => Threw(UnsupportedOperationException)
    case Right(v) => Returned(v)
  }

  /** The discriminator `isLeft()` as the package's usage example evidently
      intends it: the example tests `isLeft()` before calling `getLeft()`, and
      offers `instanceof Either.Left` as an equivalent test, so it holds
      exactly when `getLeft()` returns. */
  function IsLeftIntended<L, R>(e: Either<L, R>): (b: bool)
    ensures b <==> GetLeft(e).Returned?
  {
    e.Left?
  }

  /** The discriminator `isRight()` as its name evidently intends it, by
      symmetry with `isLeft()`: true exactly when `getRight()` returns, and
      therefore never together with `IsLeftIntended`. */
  function IsRightIntended<L, R>(e: Either<L, R>): (b: bool)
    ensures b <==> GetRight(e).Returned?
    ensures b != IsLeftIntended(e)
  {
    e.Right?
  }

  // ----- the closed hierarchy and structural equality -----

  /** Every value was built by exactly one of the two factories. */
  lemma EveryValueIsExactlyOneVariant<L, R>(e: Either<L, R>)
    ensures (exists v :: e == MakeLeft(v)) != (exists v :: e == MakeRight(v))
  {
    match e
    case Left(x) =>
      assert e == MakeLeft(x);
      forall v: R ensures e != MakeRight(v) {
        assert MakeRight<L, R>(v).Right?;
      }
    case Right(y) =>
      assert e == MakeRight(y);
      forall v: L ensures e != MakeLeft(v) {
        assert MakeLeft<L, R>(v).Left?;
      }
  }

  /** Lombok's `equals` compares the single field of the same subclass, and a
      `Left` is never equal to a `Right`. */
  lemma EqualityIsStructural<L, R>(a: L, b: L, c: R, d: R)
    ensures MakeLeft<L, R>(a) == MakeLeft<L, R>(b) <==> a == b
    ensures MakeRight<L, R>(c) == MakeRight<L, R>(d) <==> c == d
    ensures MakeLeft<L, R>(a) != MakeRight<L, R>(c)
  {
  }

  // ----- the accessors -----

  /** `left(v).getLeft()` returns `v`; `left(v).getRight()` throws. */
  lemma LeftRoundTrip<L, R>(v: L)
    ensures GetLeft(MakeLeft<L, R>(v)) == Returned(v)
    ensures GetRight(MakeLeft<L, R>(v)).Threw?
  {
  }

  /** `right(v).getRight()` returns `v`; `right(v).getLeft()` throws. */
  lemma RightRoundTrip<L, R>(v: R)
    ensures GetRight(MakeRight<L, R>(v)) == Returned(v)
    ensures GetLeft(MakeRight<L, R>(v)).Threw?
  {
  }

  // ----- the discriminators as written -----

  /** As written, `isLeft()` holds of every value, `Right`s included. */
  lemma IsLeftHoldsOfEveryValue<L, R>(e: Either<L, R>)
    ensures IsLeft(e)
    ensures e.Right? ==> IsLeft(e) != IsLeftIntended(e)
  {
  }

  /** As written, `isRight()` holds of no value, `Right`s included. */
  lemma IsRightHoldsOfNoValue<L, R>(e: Either<L, R>)
    ensures !IsRight(e)
    ensures e.Right? ==> IsRight(e) != IsRightIntended(e)
  {
  }

  /** A concrete witness: `right(1).isLeft()` is true although `getLeft()`
      throws on it, so checking `isLeft()` first does not make `getLeft()` safe. */
  lemma IsLeftDoesNotGuardGetLeft()
    ensures IsLeft(MakeRight<int, int>(1))
    ensures GetLeft(MakeRight<int, int>(1)) == Threw(UnsupportedOperationException)
  {
  }

  /** A concrete witness: `right(1).isRight()` is false although `getRight()`
      returns on it. */
  lemma IsRightMissesRight()
    ensures !IsRight(MakeRight<int, int>(1))
    ensures GetRight(MakeRight<int, int>(1)) == Returned(1)
  {
  }

  /** The intended discriminators split every value into exactly one variant,
      and each one guards its accessor. */
  lemma IntendedDiscriminatorsAreExclusive<L, R>(e: Either<L, R>)
    ensures IsLeftIntended(e) != IsRightIntended(e)
    ensures IsLeftIntended(e) ==> GetLeft(e) == Returned(e.left)
    ensures IsRightIntended(e) ==> GetRight(e) == Returned(e.right)
  {
  }
}
