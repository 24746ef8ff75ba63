# java-either in Dafny

A model of `de.scravy.either`: the immutable two-variant sum type `Either<L, R>`
and the `Eithers` utility that partitions a collection of `Either` values into
its `Left` payloads and its `Right` payloads.

- `either.dfy`, module `Either`: the closed `Left`/`Right` hierarchy as a
  datatype, the factories `left`/`right`, the discriminators `isLeft`/`isRight`
  as written and as evidently intended, the accessors `getLeft`/`getRight`, and
  Lombok's structural equality.
- `eithers.dfy`, module `Eithers`: `partitionInto` and `parition` (the Java
  method name is spelled that way), both as written and with the evidently
  intended discriminators. The reference definitions `LeftPayloads`, `RightPayloads`
  and `FirstRight` state what the loops compute.

Java methods that can throw are total functions here. They return `Call<T>`,
which is either the returned value or the thrown `UnsupportedOperationException`.
`partitionInto` returns an `Outcome`. The outcome holds the final contents of
both output lists, and says whether the loop completed or at which source index
it threw.

The code disagrees with its evident intent in two places, and the model
follows the code. `Right` overrides `isLeft()` to return `true`, and neither
variant overrides `isRight()`, so `isRight()` is always `false`. As a result,
`partitionInto` sends every element down the `isLeft()` branch. It throws at
the first `Right`, and it never appends to `rights`. The intent is read from
the package's usage example, which tests `isLeft()` before calling `getLeft()`
and offers `instanceof Either.Left` as the equivalent test, and from the names
`isRight()`, `partitionInto` ("the collection to copy rights into") and
`parition` ("a pair of lists of lefts and rights"). That intended behaviour is
modelled separately under the `Intended` names and proved there.

## Model

| member | source | states |
|---|---|---|
| `Either.MakeLeft` | src/main/java/de/scravy/either/Either.java:48-50 | `left(v)` is a `Left`: `getLeft()` returns `v` and `getRight()` throws |
| `Either.MakeRight` | src/main/java/de/scravy/either/Either.java:81-83 | `right(v)` is a `Right`: `getRight()` returns `v` and `getLeft()` throws |
| `Either.IsLeft` | src/main/java/de/scravy/either/Either.java:32-35 | `isLeft()` as written is true on every `Left` |
| `Either.IsRight` | src/main/java/de/scravy/either/Either.java:105-107 | `isRight()` as written is false on every `Left` |
| `Either.GetLeft` | src/main/java/de/scravy/either/Either.java:115-117 | `getLeft()` returns exactly on a `Left`, and then returns its field; on a `Right` it throws `UnsupportedOperationException` |
| `Either.GetRight` | src/main/java/de/scravy/either/Either.java:125-127 | `getRight()` returns exactly on a `Right`, and then returns its field; on a `Left` it throws `UnsupportedOperationException` |
| `Either.IsLeftIntended` | src/main/java/de/scravy/either/package-info.java:8-20 | `isLeft()` as the usage example intends it, interchangeable with `instanceof Either.Left`: it holds exactly when `getLeft()` returns, so testing it first makes `getLeft()` safe |
| `Either.IsRightIntended` | src/main/java/de/scravy/either/Either.java:105-107 | `isRight()` as its name intends it, by symmetry with `isLeft()`: it holds exactly when `getRight()` returns, and never agrees with the intended `isLeft()` |
| `Either.EveryValueIsExactlyOneVariant` | src/main/java/de/scravy/either/Either.java:85-87 | every value was built by exactly one of `left` and `right`, because the constructor is private and only `Left`/`Right` extend the class |
| `Either.EqualityIsStructural` | src/main/java/de/scravy/either/Either.java:26-28 | `left(a)` equals `left(b)` iff `a == b`, likewise for `right`, and a `Left` never equals a `Right` |
| `Either.LeftRoundTrip` | src/main/java/de/scravy/either/Either.java:48-50 | `left(v).getLeft()` returns `v`, and `left(v).getRight()` throws |
| `Either.RightRoundTrip` | src/main/java/de/scravy/either/Either.java:81-83 | `right(v).getRight()` returns `v`, and `right(v).getLeft()` throws |
| `Either.IsLeftHoldsOfEveryValue` | src/main/java/de/scravy/either/Either.java:67-70 | as written `isLeft()` is true for every value, and on a `Right` it disagrees with the intended discriminator |
| `Either.IsRightHoldsOfNoValue` | src/main/java/de/scravy/either/Either.java:105-107 | as written `isRight()` is false for every value, and on a `Right` it disagrees with the intended discriminator |
| `Either.IsLeftDoesNotGuardGetLeft` | src/main/java/de/scravy/either/Either.java:63-70 | `right(1).isLeft()` is true although `right(1).getLeft()` throws |
| `Either.IsRightMissesRight` | src/main/java/de/scravy/either/Either.java:99-107 | `right(1).isRight()` is false although `right(1).getRight()` returns 1 |
| `Either.IntendedDiscriminatorsAreExclusive` | src/main/java/de/scravy/either/package-info.java:8-20 | with the intended discriminators, exactly one of `isLeft()`/`isRight()` holds, and each one guarantees that its accessor returns the payload |
| `Eithers.LeftPayloads` | src/main/java/de/scravy/either/Eithers.java:25-26 | the `Left` payloads of a source, in order, are no more than the source's elements |
| `Eithers.RightPayloads` | src/main/java/de/scravy/either/Eithers.java:27-28 | the `Right` payloads of a source, in order, are no more than the source's elements |
| `Eithers.FirstRight` | src/main/java/de/scravy/either/Eithers.java:33-35 | the index at which the as-written loop stops: every earlier element is a `Left`, and the element there, if any, is a `Right` |
| `Eithers.LeadingLefts` | src/main/java/de/scravy/either/Eithers.java:33-35 | the payloads the as-written loop collects before it reaches a `Right`, no more than the source's elements |
| `Eithers.LeadingLeftsBeforeFirstRight` | src/main/java/de/scravy/either/Eithers.java:33-35 | the leading `Left` payloads are the `Left` payloads of the prefix ending at the first `Right`, one per element of that prefix |
| `Eithers.LeftPayloadsAppend` | src/main/java/de/scravy/either/Eithers.java:33-35 | the `Left` payloads of a concatenation are the payloads of the first part followed by those of the second, so order is kept |
| `Eithers.RightPayloadsAppend` | src/main/java/de/scravy/either/Eithers.java:36-37 | the `Right` payloads of a concatenation are the payloads of the first part followed by those of the second, so order is kept |
| `Eithers.PayloadCountsSum` | src/main/java/de/scravy/either/Eithers.java:42-46 | the `Left` and `Right` payload counts of a source add up to its length |
| `Eithers.PayloadsOfLeftsOnly` | src/main/java/de/scravy/either/Eithers.java:33-38 | a source of `Left`s only has no first `Right`, as many `Left` payloads as elements, and no `Right` payloads, so the as-written and the intended loops agree on it |
| `Eithers.LeftPayloadsAreTheSourcePayloads` | src/main/java/de/scravy/either/Eithers.java:25-26 | `x` is among the `Left` payloads iff some source element is `Left(x)` |
| `Eithers.RightPayloadsAreTheSourcePayloads` | src/main/java/de/scravy/either/Eithers.java:27-28 | `y` is among the `Right` payloads iff some source element is `Right(y)` |
| `Eithers.PartitionInto` | src/main/java/de/scravy/either/Eithers.java:30-40 | as written, `rights` is never changed, and `lefts` gains the payloads of the `Left`s before the first `Right`, in order. The call completes iff every source element is a `Left`. Otherwise it throws at the index of the first `Right`: that element is a `Right` and every earlier one is a `Left` |
| `Eithers.Partition` | src/main/java/de/scravy/either/Eithers.java:48-55 | as written, `parition` leaves its rights list empty and collects the payloads of the `Left`s before the first `Right`. It completes iff the source holds no `Right`, with every payload in order. Otherwise it throws at the first `Right`: that element is a `Right`, every earlier one is a `Left`, and the lefts list holds their payloads |
| `Eithers.PartitionIntoIntended` | src/main/java/de/scravy/either/Eithers.java:21-29 | with the intended discriminators, `partitionInto` always completes. It appends every `Left` payload to `lefts` and every `Right` payload to `rights`, each in source order, and the outputs grow by the source length in total |
| `Eithers.PartitionIntended` | src/main/java/de/scravy/either/Eithers.java:42-46 | with the intended discriminators, `parition` returns the `Left` payloads and the `Right` payloads in source order, and their lengths sum to the source length |
| `Eithers.MixedSourceScenario` | src/main/java/de/scravy/either/Eithers.java:48-55 | for `[left("a"), right(1), left("b"), right(2)]`, `parition` as written throws at index 1 with lefts `["a"]` and no rights; as intended it returns `(["a", "b"], [1, 2])` |

## Left out

- `map`, `bind` and `consume` combinators: `Either.java` defines none of them, so modelling them would invent behaviour.
- `Function`, `BiFunction`, `EitherFunction` and `EitherBiFunction`: each only declares an `apply` signature, with no implementation and no caller.
- `de.scravy.pair.Pair` and `Pairs` are not part of this model. The pair that `parition` returns is an `Outcome` holding both lists, and two results of `PartitionIntended`.
- Java `Collection` generality: the outputs are append-only sequences. That is what `parition` passes (`ArrayList`). A `Set` target that drops duplicates is not modelled, and neither is the return value of `add`.
- Aliased or read-only outputs: `partitionInto` takes `lefts` and `rights` to be two distinct, modifiable lists, each an independent sequence value. Two calls are not modelled. One passes the same collection for both, which Java accepts when `L` and `R` coincide, and then `rights` does change. The other passes an output whose `add` throws, such as an immutable list, which makes `partitionInto` throw where the model reports `Completed`. `parition` is unaffected, because it passes two fresh `ArrayList`s.
- The `source.size() / 2` initial capacity in `parition`: it has no observable effect.
- Lombok's `hashCode`, `toString` and generated constructors: only structural equality is modelled.
- `null`: null payloads, null source elements and null output collections are not modelled. The last two make `partitionInto` throw `NullPointerException`, which `Outcome` cannot represent.
- Exceptions as a control-flow mechanism: an accessor's throw is the `Threw` value of `Call`, and the `UnsupportedOperationException` that `partitionInto` lets escape is the `Failed` value of `Outcome`. The outcome carries the output lists as they were when the exception was raised.
- `parition` calling `partitionInto`: `Partition` calls `PartitionInto` with empty outputs and restates its contract for them. Its contract cannot mention that call, because methods cannot appear in contracts.
- The intended reading of `isLeft()`/`isRight()` as exact discriminators, and the working partition that follows from it, appear only under the `Intended` names. Everywhere else the model follows the code.

## Findings

| source | as written | input that shows it | evidently intended | confidence | as-written member | corrected member |
|---|---|---|---|---|---|---|
| src/main/java/de/scravy/either/Either.java:67-70 | `Right.isLeft()` returns `true` | `Either.right(1).isLeft()` is true | `Right.isLeft()` returns `false` | high; not executed | `Either.IsLeftDoesNotGuardGetLeft` | `Either.IsLeftIntended` |
| src/main/java/de/scravy/either/Either.java:105-107 | `isRight()` is never overridden and is `false` for every value | `Either.right(1).isRight()` is false | `Right.isRight()` returns `true` | high; not executed | `Either.IsRightMissesRight` | `Either.IsRightIntended` |
| src/main/java/de/scravy/either/Eithers.java:33-38 | every element takes the `isLeft()` branch, so the first `Right` reaches `getLeft()` and throws, and `rights` is never filled | `parition([left("a"), right(1), left("b"), right(2)])` throws `UnsupportedOperationException` at index 1 | returns `(["a", "b"], [1, 2])` | high; not executed | `Eithers.MixedSourceScenario` | `Eithers.PartitionIntended` |
