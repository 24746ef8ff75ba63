/** The partition utilities of de.scravy.either.Eithers.

  `partitionInto` walks a source collection once, in iteration order, and
  appends to two caller-owned output collections. The outputs are modelled as
  append-only sequences, and the call as a method that returns an `Outcome`.
  The outcome holds the final contents of both outputs, and says whether the
  walk completed or which element's accessor threw.

  As written, the loop asks `isLeft()` first. `isLeft()` holds of every value,
  so the first `Right` reaches `getLeft()`, which throws. `PartitionInto` and
  `Partition` model that behaviour. `PartitionIntoIntended` and
  `PartitionIntended` run the same loop with the intended discriminators and
  are proved to partition the source completely.
 */
module Eithers {
  import opened Either

  /** The two output sequences after a call, and whether the call completed
      or threw while visiting the element at index `at`. */
  datatype Outcome<L, R> =
    | Completed(leftsAfter: seq<L>, rightsAfter: seq<R>)
    | Failed(leftsAfter: seq<L>, rightsAfter: seq<R>, at: nat, exception: Exception)

  // ----- reference definitions -----

  /** The payload of `e` if it is a `Left`, as a sequence of zero or one element. */
  function LeftOf<L, R>(e: Either<L, R>): (r: seq<L>)
    ensures |r| == if e.Left? then 1 else 0
  {
    if e.Left? then [e.left] else []
  }

  /** The payload of `e` if it is a `Right`, as a sequence of zero or one element. */
  function RightOf<L, R>(e: Either<L, R>): (r: seq<R>)
    ensures |r| == if e.Right? then 1 else 0
  {
    if e.Right? then [e.right] else []
  }

  /** The `Left` payloads of `s`, in source order. */
  function LeftPayloads<L, R>(s: seq<Either<L, R>>): (r: seq<L>)
    ensures |r| <= |s|
  {
    if |s| == 0 then []
    else LeftOf(s[0]) + LeftPayloads(s[1..])
  }

  /** The `Right` payloads of `s`, in source order. */
  function RightPayloads<L, R>(s: seq<Either<L, R>>): (r: seq<R>)
    ensures |r| <= |s|
  {
    if |s| == 0 then []
    else RightOf(s[0]) + RightPayloads(s[1..])
  }

  /** The index of the first `Right` in `s`, or `|s|` when there is none. */
  function FirstRight<L, R>(s: seq<Either<L, R>>): (k: nat)
    ensures k <= |s|
    ensures forall j :: 0 <= j < k ==> s[j].Left?
    ensures k < |s| ==> s[k].Right?
  {
    if |s| == 0 || s[0].Right? then 0 else 1 + FirstRight(s[1..])
  }

  /** The payloads of the `Left`s that come before the first `Right` of `s`. */
  function LeadingLefts<L, R>(s: seq<Either<L, R>>): (r: seq<L>)
    ensures |r| <= |s|
  {
    if |s| == 0 || s[0].Right? then [] else [s[0].left] + LeadingLefts(s[1..])
  }

  lemma {:induction false} LeftPayloadsAppend<L, R>(a: seq<Either<L, R>>, b: seq<Either<L, R>>)
    ensures LeftPayloads(a + b) == LeftPayloads(a) + LeftPayloads(b)
  {
    if |a| == 0 {
      assert a + b == b;
    } else {
      assert (a + b)[0] == a[0];
      assert (a + b)[1..] == a[1..] + b;
      LeftPayloadsAppend(a[1..], b);
      calc {
        LeftPayloads(a + b);
        LeftOf(a[0]) + LeftPayloads(a[1..] + b);
        LeftOf(a[0]) + (LeftPayloads(a[1..]) + LeftPayloads(b));
      }
    }
  }

  lemma {:induction false} RightPayloadsAppend<L, R>(a: seq<Either<L, R>>, b: seq<Either<L, R>>)
    ensures RightPayloads(a + b) == RightPayloads(a) + RightPayloads(b)
  {
    if |a| == 0 {
      assert a + b == b;
    } else {
      assert (a + b)[0] == a[0];
      assert (a + b)[1..] == a[1..] + b;
      RightPayloadsAppend(a[1..], b);
      calc {
        RightPayloads(a + b);
        RightOf(a[0]) + RightPayloads(a[1..] + b);
        RightOf(a[0]) + (RightPayloads(a[1..]) + RightPayloads(b));
      }
    }
  }

  /** Visiting one more element appends that element's payload to the
      outputs collected so far. */
  lemma PayloadsOfLongerPrefix<L, R>(s: seq<Either<L, R>>, i: nat, lefts: seq<L>, rights: seq<R>)
    requires i < |s|
    ensures lefts + LeftPayloads(s[..i + 1]) == lefts + LeftPayloads(s[..i]) + LeftOf(s[i])
    ensures rights + RightPayloads(s[..i + 1]) == rights + RightPayloads(s[..i]) + RightOf(s[i])
  {
    assert s[..i + 1] == s[..i] + [s[i]];
    LeftPayloadsAppend(s[..i], [s[i]]);
    RightPayloadsAppend(s[..i], [s[i]]);
  }

  /** The leading `Left` payloads are the `Left` payloads of the prefix that
      ends at the first `Right`, and there are exactly as many of them as
      elements in that prefix. */
  lemma {:induction false} LeadingLeftsBeforeFirstRight<L, R>(s: seq<Either<L, R>>)
    ensures LeadingLefts(s) == LeftPayloads(s[..FirstRight(s)])
    ensures |LeadingLefts(s)| == FirstRight(s)
  {
    if |s| == 0 || s[0].Right? {
      assert s[..FirstRight(s)] == [];
    } else {
      var k := FirstRight(s);
      LeadingLeftsBeforeFirstRight(s[1..]);
      assert s[..k][0] == s[0];
      assert s[..k][1..] == s[1..][..FirstRight(s[1..])];
    }
  }

  /** Every element lands in exactly one of the two payload sequences. */
  lemma {:induction false} PayloadCountsSum<L, R>(s: seq<Either<L, R>>)
    ensures |LeftPayloads(s)| + |RightPayloads(s)| == |s|
  {
    if |s| > 0 {
      PayloadCountsSum(s[1..]);
    }
  }

  /** A source of `Left`s only has no first `Right`, and all its payloads are
      on the left. */
  lemma {:induction false} PayloadsOfLeftsOnly<L, R>(s: seq<Either<L, R>>)
    requires forall i :: 0 <= i < |s| ==> s[i].Left?
    ensures |LeftPayloads(s)| == |s|
    ensures RightPayloads(s) == []
    ensures FirstRight(s) == |s|
  {
    if |s| > 0 {
      PayloadsOfLeftsOnly(s[1..]);
    }
  }

  /** A value is a `Left` payload of `s` exactly when some element of `s` is
      a `Left` holding it. */
  lemma {:induction false} LeftPayloadsAreTheSourcePayloads<L, R>(s: seq<Either<L, R>>, x: L)
    ensures x in LeftPayloads(s) <==> exists i :: 0 <= i < |s| && s[i] == Left(x)
  {
    if |s| > 0 {
      LeftPayloadsAreTheSourcePayloads(s[1..], x);
      if x in LeftPayloads(s[1..]) {
        var i :| 0 <= i < |s[1..]| && s[1..][i] == Left(x);
        assert s[i + 1] == Left(x);
      }
      if exists i :: 0 <= i < |s| && s[i] == Left(x) {
        var i :| 0 <= i < |s| && s[i] == Left(x);
        if i > 0 {
          assert s[1..][i - 1] == Left(x);
        }
      }
    }
  }

  /** A value is a `Right` payload of `s` exactly when some element of `s` is
      a `Right` holding it. */
  lemma {:induction false} RightPayloadsAreTheSourcePayloads<L, R>(s: seq<Either<L, R>>, y: R)
    ensures y in RightPayloads(s) <==> exists i :: 0 <= i < |s| && s[i] == Right(y)
  {
    if |s| > 0 {
      RightPayloadsAreTheSourcePayloads(s[1..], y);
      if y in RightPayloads(s[1..]) {
        var i :| 0 <= i < |s[1..]| && s[1..][i] == Right(y);
        assert s[i + 1] == Right(y);
      }
      if exists i :: 0 <= i < |s| && s[i] == Right(y) {
        var i :| 0 <= i < |s| && s[i] == Right(y);
        if i > 0 {
          assert s[1..][i - 1] == Right(y);
        }
      }
    }
  }

  // ----- partitionInto and parition, as written -----

  /** `Eithers.partitionInto(source, lefts, rights)` as written. Every element
      passes the `isLeft()` test, so the `rights` branch is never taken: the
      call appends the payloads of the leading `Left`s to `lefts` and throws
      at the first `Right`, or completes when there is none. The thrown value
      needs no clause of its own: `Exception` has a single constructor. */
  method PartitionInto<L, R>(source: seq<Either<L, R>>, lefts: seq<L>, rights: seq<R>) returns (out: Outcome<L, R>)
    ensures out.rightsAfter == rights
    ensures out.leftsAfter == lefts + LeadingLefts(source)
    ensures out.Completed? <==> forall j :: 0 <= j < |source| ==> source[j].Left?
    ensures out.Failed? ==>
      && out.at < |source| && source[out.at].Right?
      && (forall j :: 0 <= j < out.at ==> source[j].Left?)
  {
    LeadingLeftsBeforeFirstRight(source);
    var ls, rs := lefts, rights;
    var i: nat := 0;
    while i < |source|
      invariant i <= FirstRight(source)
      invariant ls == lefts + LeftPayloads(source[..i])
      invariant rs == rights
    {
      var e := source[i];
      PayloadsOfLongerPrefix(source, i, lefts, rights);
      if IsLeft(e) {
        match GetLeft(e) {
          case Returned(v) =>
            assert LeftOf(e) == [v];
            ls := ls + [v];
          case Threw(x) =>
            return Failed(ls, rs, i, x);
        }
      } else if IsRight(e) {
        match GetRight(e) {
          case Returned(v) => rs := rs + [v];
          case Threw(x) => return Failed(ls, rs, i, x);
        }
      }
      i := i + 1;
    }
    assert source[..i] == source;
    out := Completed(ls, rs);
  }

  /** `Eithers.parition(source)` as written: `partitionInto` with two fresh,
      empty lists. The result is `Completed` only when `source` holds no `Right`. */
  method Partition<L, R>(source: seq<Either<L, R>>) returns (out: Outcome<L, R>)
    ensures out.rightsAfter == []
    ensures out.Completed? <==> forall j :: 0 <= j < |source| ==> source[j].Left?
    ensures out.Completed? ==> out.leftsAfter == LeftPayloads(source) && |out.leftsAfter| == |source|
    ensures out.Failed? ==>
      && out.at < |source| && source[out.at].Right?
      && (forall j :: 0 <= j < out.at ==> source[j].Left?)
      && out.leftsAfter == LeftPayloads(source[..out.at])
  {
    out := PartitionInto(source, [], []);
    LeadingLeftsBeforeFirstRight(source);
    assert source[..|source|] == source;
    if out.Completed? {
      PayloadsOfLeftsOnly(source);
    }
  }

  // ----- partitionInto and parition, with the intended discriminators -----

  /** `partitionInto` as evidently intended: the same loop with `isLeft()`/`isRight()`
      telling the variants apart. It never throws, appends every `Left` payload
      to `lefts` and every `Right` payload to `rights`, each in source order. */
  method PartitionIntoIntended<L, R>(source: seq<Either<L, R>>, lefts: seq<L>, rights: seq<R>) returns (out: Outcome<L, R>)
    ensures out.Completed? && |out.leftsAfter| + |out.rightsAfter| == |lefts| + |rights| + |source|
    ensures out.leftsAfter == lefts + LeftPayloads(source)
    ensures out.rightsAfter == rights + RightPayloads(source)
  {
    var ls, rs := lefts, rights;
    var i: nat := 0;
    while i < |source|
      invariant i <= |source|
      invariant ls == lefts + LeftPayloads(source[..i])
      invariant rs == rights + RightPayloads(source[..i])
    {
      var e := source[i];
      PayloadsOfLongerPrefix(source, i, lefts, rights);
      if IsLeftIntended(e) {
        var v := GetLeft(e).value;
        assert LeftOf(e) == [v] && RightOf(e) == [];
        ls := ls + [v];
      } else if IsRightIntended(e) {
        var v := GetRight(e).value;
        assert RightOf(e) == [v] && LeftOf(e) == [];
        rs := rs + [v];
      }
      i := i + 1;
    }
    assert source[..i] == source;
    out := Completed(ls, rs);
    PayloadCountsSum(source);
  }

  /** `parition` as evidently intended: the `Left` and the `Right` payloads of
      `source`, each in source order, together as long as `source`. */
  method PartitionIntended<L, R>(source: seq<Either<L, R>>) returns (lefts: seq<L>, rights: seq<R>)
    ensures |lefts| + |rights| == |source|
    ensures lefts == LeftPayloads(source)
    ensures rights == RightPayloads(source)
  {
    var out := PartitionIntoIntended(source, [], []);
    lefts, rights := out.leftsAfter, out.rightsAfter;
    PayloadCountsSum(source);
  }

  /** Scenario: partitioning `[left("a"), right(1), left("b"), right(2)]`.
      As written, `parition` throws at index 1 with `["a"]` collected and no
      rights; as evidently intended it returns `(["a", "b"], [1, 2])`. */
  method MixedSourceScenario() returns (asWritten: Outcome<string, int>, lefts: seq<string>, rights: seq<int>)
    ensures asWritten == Failed(["a"], [], 1, UnsupportedOperationException)
    ensures lefts == ["a", "b"] && rights == [1, 2]
  {
    var s: seq<Either<string, int>> := [Left("a"), Right(1), Left("b"), Right(2)];
    assert s[1..] == [Right(1), Left("b"), Right(2)];
    assert s[1..][1..] == [Left("b"), Right(2)];
    assert s[1..][1..][1..] == [Right(2)];
    asWritten := Partition(s);
    assert !s[1].Left?;
    lefts, rights := PartitionIntended(s);
  }
}
