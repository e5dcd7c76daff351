/** Shared vocabulary of the training-platform backend: identifiers, timestamps,
    optional values, service results and the HTTP exception a failure surfaces as. */
module Common {

  /** Row identifiers (cuid strings in the store). */
  type Id = string

  /** A timestamp, as the integer the clock supplies (`new Date()` is a parameter). */
  type Time = int

  datatype Option<+T> = None | Some(value: T)

  /** A service call either returns a value or throws one of the service's errors. */
  datatype Result<+T, +E> = Ok(value: T) | Err(error: E)

  /** The NestJS exception class an error is thrown as; `Internal` stands for an
      unhandled runtime or store error, which the framework answers with HTTP 500. */
  datatype Exception = BadRequest | Unauthorized | Forbidden | NotFound | Internal

  /** No element occurs twice. */
  predicate Distinct<T(==)>(s: seq<T>) {
    forall j, k :: 0 <= j < k < |s| ==> s[j] != s[k]
  }

  /** Concatenation is associative. */
  lemma Regroup<T>(x: seq<T>, m: seq<T>, y: seq<T>)
    ensures x + m + y == x + (m + y)
  {
  }

  /** A common prefix passes through a concatenation. */
  lemma PrefixChain<T>(h: seq<T>, whole: seq<T>, first: seq<T>, rest: seq<T>, firstRest: seq<T>, second: seq<T>)
    requires whole == h + rest && first == h + firstRest && rest == firstRest + second
    ensures whole == first + second
  {
    assert h + (firstRest + second) == h + firstRest + second;
  }

  /** A common suffix passes through a concatenation. */
  lemma SuffixChain<T>(e: seq<T>, whole: seq<T>, second: seq<T>, front: seq<T>, first: seq<T>, secondFront: seq<T>)
    requires whole == front + e && second == secondFront + e && front == first + secondFront
    ensures whole == first + second
  {
    assert first + secondFront + e == first + (secondFront + e);
  }

  /** `rows` lists every key of a table exactly once: how a `findMany` over the
      table hands its rows over, in the query's order. */
  predicate Enumerates<T(==)>(rows: seq<T>, keys: set<T>) {
    && Distinct(rows)
    && (forall k :: k in rows ==> k in keys)
    && (forall k :: k in keys ==> k in rows)
  }

  /** `Math.round(part / whole * 100)` computed exactly: the integer nearest to
      100 * part / whole, with halves rounded up. */
  function RoundPercent(part: nat, whole: nat): (p: nat)
    requires whole > 0
    ensures 2 * whole * p <= 200 * part + whole < 2 * whole * (p + 1)
    ensures part <= whole ==> p <= 100
    ensures part == whole ==> p == 100
    ensures part == 0 ==> p == 0
  {
    RoundingBounds(part, whole);
    (200 * part + whole) / (2 * whole)
  }

  lemma RoundingBounds(part: nat, whole: nat)
    requires whole > 0
    ensures var p := (200 * part + whole) / (2 * whole);
      && 2 * whole * p <= 200 * part + whole < 2 * whole * (p + 1)
      && (part <= whole ==> p <= 100)
      && (part == whole ==> p == 100)
      && (part == 0 ==> p == 0)
  {
    var p := (200 * part + whole) / (2 * whole);
    assert 2 * whole * p <= 200 * part + whole < 2 * whole * (p + 1);
    if part <= whole {
      assert 200 * part + whole < 2 * whole * 101;
      MulLeftCancel(2 * whole, p, 101);
    }
    if part == whole {
      assert 2 * whole * 100 <= 200 * part + whole < 2 * whole * 101;
      MulLeftCancel(2 * whole, p, 101);
      MulLeftCancel(2 * whole, 99, p);
    }
    if part == 0 {
      MulLeftCancel(2 * whole, p, 1);
    }
  }

  /** Multiplication by a positive constant preserves strict order. */
  lemma MulLeftCancel(k: int, a: int, b: int)
    requires k > 0 && k * a < k * b
    ensures a < b
  {
    assert k * (b - a) > 0;
  }

  /** A percentage never decreases when more of the whole is done. */
  lemma {:induction false} RoundPercentMonotone(a: nat, b: nat, whole: nat)
    requires whole > 0 && a <= b
    ensures RoundPercent(a, whole) <= RoundPercent(b, whole)
  {
    var pa, pb := RoundPercent(a, whole), RoundPercent(b, whole);
    assert 2 * whole * pa < 2 * whole * (pb + 1);
    MulLeftCancel(2 * whole, pa, pb + 1);
  }

  /** A subset at least as large as its superset is the whole superset. */
  lemma SubsetOfFullSize<T>(a: set<T>, b: set<T>)
    requires a <= b && |a| >= |b|
    ensures a == b
  {
    assert b == a + (b - a);
    assert |b| == |a| + |b - a|;
    assert b - a == {};
  }
}
