/**
 The three-state `Result<T, E>` of lib/result.hh: `Pending`, `Ok(value)` or
 `Err(error)`. Every member is a pure function over immutable values; an
 operation that mutates its receiver in C++ (`reset`, `emplace`, `take_value`,
 moves, `swap`) returns the new receiver (and the moved-from source) instead.
 The `*_required` guards, which call `std::terminate`, become `Fatal`.
 */
module ResultLib {
  import opened Prelude

  datatype Result<T, E> = Pending | Ok(value: T) | Err(error: E)

  const NonPendingRequired := "in non pending required"
  const ValueRequired := "in value required"
  const ErrorRequired := "in error required"

  ////////////////////////////////////////////////////////////////////////////
  // Observers
  ////////////////////////////////////////////////////////////////////////////

  predicate IsPending<T, E>(r: Result<T, E>) { r.Pending? }
  predicate IsOk<T, E>(r: Result<T, E>) { r.Ok? }
  predicate IsError<T, E>(r: Result<T, E>) { r.Err? }

  /** `explicit operator bool`: the result has settled. */
  predicate Settled<T, E>(r: Result<T, E>) { !r.Pending? }

  /** Exactly one of the three observers holds, and `operator bool` is `!is_pending`. */
  lemma ExactlyOneState<T, E>(r: Result<T, E>)
    ensures IsPending(r) ==> !IsOk(r) && !IsError(r)
    ensures IsOk(r) ==> !IsPending(r) && !IsError(r)
    ensures IsError(r) ==> !IsPending(r) && !IsOk(r)
    ensures IsPending(r) || IsOk(r) || IsError(r)
    ensures Settled(r) <==> !IsPending(r)
  {
  }

  ////////////////////////////////////////////////////////////////////////////
  // Construction and assignment
  ////////////////////////////////////////////////////////////////////////////

  /** Converting constructor from `Result<X, Y>`: keeps the state, converts the payload. */
  function Convert<X, Y, T, E>(r: Result<X, Y>, toValue: X -> T, toError: Y -> E): (c: Result<T, E>)
    ensures c.Pending? <==> r.Pending?
    ensures c.Ok? <==> r.Ok?
    ensures r.Ok? ==> c.value == toValue(r.value)
    ensures r.Err? ==> c.error == toError(r.error)
  {
    match r
    case Pending => Pending
    case Ok(x) => Ok(toValue(x))
    case Err(y) => Err(toError(y))
  }

  /** Move construction from `source`: the new result takes its state, the source is left `Pending`. */
  function Move<T, E>(source: Result<T, E>): (p: (Result<T, E>, Result<T, E>))
    ensures p.0 == source
    ensures p.1.Pending?
  {
    (source, Pending)
  }

  /**
   Move assignment `target = std::move(source)`, returning the new target and
   the new source. The storage is moved first and the source reset after, so
   when both name the same object (`aliased`) that reset is what remains.
   */
  function MoveAssign<T, E>(target: Result<T, E>, source: Result<T, E>, aliased: bool): (p: (Result<T, E>, Result<T, E>))
    requires aliased ==> target == source
    ensures p.1.Pending?
    ensures !aliased ==> p.0 == source
    ensures aliased ==> p.0.Pending?
  {
    if aliased then (Pending, Pending) else (source, Pending)
  }

  /** Self-move-assignment loses a settled value; a move to a distinct target keeps it. */
  lemma SelfMoveAssignEmpties<T, E>(r: Result<T, E>, other: Result<T, E>)
    ensures MoveAssign(r, r, true).0 == Pending
    ensures MoveAssign(other, r, false).0 == r
    ensures MoveAssign(other, r, false).0 == Move(r).0
  {
  }

  /** `reset()` and `operator=(Pending)`. */
  function Reset<T, E>(r: Result<T, E>): (p: Result<T, E>)
    ensures p.Pending?
  {
    Pending
  }

  /** `emplace(args...)`: whatever the state was, the result now holds `v`. */
  function Emplace<T, E>(r: Result<T, E>, v: T): (p: Result<T, E>)
    ensures p.Ok? && p.value == v
  {
    Ok(v)
  }

  /** `operator=(Err)`: whatever the state was, the result now holds the error `e`. */
  function AssignErr<T, E>(r: Result<T, E>, e: E): (p: Result<T, E>)
    ensures p.Err? && p.error == e
  {
    Err(e)
  }

  /** `swap`: each side ends up with the other's former state. */
  function Swap<T, E>(lhs: Result<T, E>, rhs: Result<T, E>): (p: (Result<T, E>, Result<T, E>))
    ensures p.0 == rhs && p.1 == lhs
  {
    (rhs, lhs)
  }

  lemma SwapTwiceRestores<T, E>(lhs: Result<T, E>, rhs: Result<T, E>)
    ensures Swap(Swap(lhs, rhs).0, Swap(lhs, rhs).1) == (lhs, rhs)
  {
  }

  ////////////////////////////////////////////////////////////////////////////
  // Combinators
  ////////////////////////////////////////////////////////////////////////////

  /** `map`: applies `f` to an `Ok` value; `Pending` and `Err` pass through. */
  function Map<T, E, U>(r: Result<T, E>, f: T -> U): (m: Result<U, E>)
    ensures m.Pending? <==> r.Pending?
    ensures m.Err? <==> r.Err?
    ensures r.Err? ==> m.error == r.error
    ensures r.Ok? ==> m.value == f(r.value)
  {
    match r
    case Pending => Pending
    case Ok(v) => Ok(f(v))
    case Err(e) => Err(e)
  }

  /** `map_err`: applies `f` to an `Err` error; `Pending` and `Ok` pass through. */
  function MapErr<T, E, U>(r: Result<T, E>, f: E -> U): (m: Result<T, U>)
    ensures m.Pending? <==> r.Pending?
    ensures m.Ok? <==> r.Ok?
    ensures r.Ok? ==> m.value == r.value
    ensures r.Err? ==> m.error == f(r.error)
  {
    match r
    case Pending => Pending
    case Ok(v) => Ok(v)
    case Err(e) => Err(f(e))
  }

  /** `map` is a functor: mapping the identity changes nothing, and two maps fuse into one. */
  lemma MapFunctorLaws<T, E, U, W>(r: Result<T, E>, f: T -> U, g: U -> W)
    ensures Map(r, x => x) == r
    ensures Map(Map(r, f), g) == Map(r, x => g(f(x)))
  {
  }

  /** `map` touches only the value and `map_err` only the error, so they commute. */
  lemma MapCommutesWithMapErr<T, E, U, F>(r: Result<T, E>, f: T -> U, g: E -> F)
    ensures Map(MapErr(r, g), f) == MapErr(Map(r, f), g)
  {
  }

  /** `map_or_else(fallback, f)`: `f` of the value, `fallback` of the error; terminates on `Pending`. */
  function MapOrElse<T, E, U>(r: Result<T, E>, fallback: E -> U, f: T -> U): (u: Exit<U>)
    ensures u.Fatal? <==> r.Pending?
    ensures r.Ok? ==> u == Returns(f(r.value))
    ensures r.Err? ==> u == Returns(fallback(r.error))
  {
    match r
    case Pending => Fatal(NonPendingRequired)
    case Ok(v) => Returns(f(v))
    case Err(e) => Returns(fallback(e))
  }

  /** `and_then(f)`: continues with `f` on `Ok`, keeps the error on `Err`, terminates on `Pending`. */
  function AndThen<T, E, U>(r: Result<T, E>, f: T -> Result<U, E>): (u: Exit<Result<U, E>>)
    ensures u.Fatal? <==> r.Pending?
    ensures r.Ok? ==> u == Returns(f(r.value))
    ensures r.Err? ==> u == Returns(Err(r.error))
  {
    match r
    case Pending => Fatal(NonPendingRequired)
    case Ok(v) => Returns(f(v))
    case Err(e) => Returns(Err(e))
  }

  /** `or_else(f)`: recovers with `f` on `Err`, keeps the value on `Ok`, terminates on `Pending`. */
  function OrElse<T, E, F>(r: Result<T, E>, f: E -> Result<T, F>): (u: Exit<Result<T, F>>)
    ensures u.Fatal? <==> r.Pending?
    ensures r.Ok? ==> u == Returns(Ok(r.value))
    ensures r.Err? ==> u == Returns(f(r.error))
  {
    match r
    case Pending => Fatal(NonPendingRequired)
    case Ok(v) => Returns(Ok(v))
    case Err(e) => Returns(f(e))
  }

  /** `and_then` has `Ok` as its unit on both sides, for every settled result. */
  lemma AndThenMonadUnits<T, E, U>(r: Result<T, E>, x: T, f: T -> Result<U, E>)
    ensures AndThen(Ok(x), f) == Returns(f(x))
    ensures !r.Pending? ==> AndThen(r, v => Ok(v)) == Returns(r)
  {
  }

  /** `or_else` has `Err` as its unit on both sides, for every settled result. */
  lemma OrElseMonadUnits<T, E, F>(r: Result<T, E>, e: E, f: E -> Result<T, F>)
    ensures OrElse(Err(e), f) == Returns(f(e))
    ensures !r.Pending? ==> OrElse(r, x => Err(x)) == Returns(r)
  {
  }

  ////////////////////////////////////////////////////////////////////////////
  // Accessors
  ////////////////////////////////////////////////////////////////////////////

  /** `contains(x)`: the result is `Ok` holding exactly `x`. */
  function Contains<T(==), E>(r: Result<T, E>, x: T): (b: bool)
    ensures b <==> r == Ok(x)
  {
    if r.Ok? then r.value == x else false
  }

  /** `contains_err(x)`: the result is `Err` holding exactly `x`. */
  function ContainsErr<T, E(==)>(r: Result<T, E>, x: E): (b: bool)
    ensures b <==> r == Err(x)
  {
    if r.Err? then r.error == x else false
  }

  /** `value_or(d)`: the `Ok` content, otherwise `d` (for `Err` and `Pending` alike). */
  function ValueOr<T, E>(r: Result<T, E>, d: T): (v: T)
    ensures r.Ok? ==> v == r.value
    ensures !r.Ok? ==> v == d
  {
    if r.Ok? then r.value else d
  }

  /** `value_or_else(f)`: the `Ok` content, `f` of the error, and termination on `Pending`. */
  function ValueOrElse<T, E>(r: Result<T, E>, f: E -> T): (v: Exit<T>)
    ensures v.Fatal? <==> r.Pending?
    ensures r.Ok? ==> v == Returns(r.value)
    ensures r.Err? ==> v == Returns(f(r.error))
  {
    match r
    case Pending => Fatal(NonPendingRequired)
    case Ok(x) => Returns(x)
    case Err(e) => Returns(f(e))
  }

  /** `value()`, `operator*`, `operator->` and `expect(s)`: the `Ok` content, terminating otherwise. */
  function Value<T, E>(r: Result<T, E>): (v: Exit<T>)
    ensures v.Returns? <==> r.Ok?
    ensures r.Ok? ==> v.value == r.value
  {
    if r.Ok? then Returns(r.value) else Fatal(ValueRequired)
  }

  /** `error()` and `expect_err(s)`: the `Err` content, terminating otherwise. */
  function Error<T, E>(r: Result<T, E>): (v: Exit<E>)
    ensures v.Returns? <==> r.Err?
    ensures r.Err? ==> v.value == r.error
  {
    if r.Err? then Returns(r.error) else Fatal(ErrorRequired)
  }

  /** `take_value()`: yields the `Ok` content and leaves the result `Pending`; terminates unless `Ok`. */
  function TakeValue<T, E>(r: Result<T, E>): (p: Exit<(T, Result<T, E>)>)
    ensures p.Returns? <==> r.Ok?
    ensures r.Ok? ==> p.value.0 == r.value && p.value.1.Pending?
  {
    Then(Value(r), (v: T) => Returns((v, Reset(r))))
  }

  /** `take_error()`: yields the `Err` content and leaves the result `Pending`; terminates unless `Err`. */
  function TakeError<T, E>(r: Result<T, E>): (p: Exit<(E, Result<T, E>)>)
    ensures p.Returns? <==> r.Err?
    ensures r.Err? ==> p.value.0 == r.error && p.value.1.Pending?
  {
    Then(Error(r), (e: E) => Returns((e, Reset(r))))
  }

  /** Taking the value of a freshly emplaced result gives back exactly what was emplaced. */
  lemma EmplaceThenTake<T, E>(r: Result<T, E>, v: T)
    ensures TakeValue(Emplace(r, v)) == Returns((v, Pending))
  {
  }

  /** Assigning an error and taking it back returns that error and leaves `Pending`. */
  lemma AssignErrThenTake<T, E>(r: Result<T, E>, e: E)
    ensures TakeError(AssignErr(r, e)) == Returns((e, Pending))
  {
  }

  ////////////////////////////////////////////////////////////////////////////
  // Equality operators
  ////////////////////////////////////////////////////////////////////////////

  /**
   `Result == Result` as written: both `Ok` compare values; otherwise, when the
   two agree on `is_error()` it compares `error()` (which terminates unless both
   are `Err`); otherwise it compares `is_pending()`.
   */
  function EqResult<T(==), E(==)>(lhs: Result<T, E>, rhs: Result<T, E>): (b: Exit<bool>)
    ensures b.Fatal? <==> !lhs.Err? && !rhs.Err? && (lhs.Pending? || rhs.Pending?)
    ensures (lhs.Ok? && rhs.Err?) || (lhs.Err? && rhs.Ok?) ==> b == Returns(true)
  {
    if lhs.Ok? && rhs.Ok? then Returns(lhs.value == rhs.value)
    else if lhs.Err? == rhs.Err? then
      Then(Error(lhs), (l: E) => Then(Error(rhs), (r: E) => Returns(l == r)))
    else Returns(lhs.Pending? == rhs.Pending?)
  }

  /** What `EqResult` actually does, case by case. */
  lemma EqResultCases<T, E>(lhs: Result<T, E>, rhs: Result<T, E>)
    ensures lhs.Ok? && rhs.Ok? ==> EqResult(lhs, rhs) == Returns(lhs.value == rhs.value)
    ensures lhs.Err? && rhs.Err? ==> EqResult(lhs, rhs) == Returns(lhs.error == rhs.error)
    ensures lhs.Ok? && rhs.Err? ==> EqResult(lhs, rhs) == Returns(true)
    ensures lhs.Err? && rhs.Ok? ==> EqResult(lhs, rhs) == Returns(true)
    ensures lhs.Pending? != rhs.Pending? && (lhs.Err? || rhs.Err?) ==> EqResult(lhs, rhs) == Returns(false)
    ensures EqResult(lhs, rhs).Fatal? <==> !lhs.Err? && !rhs.Err? && (lhs.Pending? || rhs.Pending?)
  {
  }

  /** The discrepancy: `Ok(1) == Err(2)` holds, while `Pending == Pending` terminates. */
  lemma EqResultOkErrIsTrue()
    ensures EqResult<int, int>(Ok(1), Err(2)) == Returns(true)
    ensures EqResult<int, int>(Pending, Pending).Fatal?
    ensures EqResult<int, int>(Ok(1), Pending).Fatal?
  {
  }

  /** `Result == Result` as evidently intended: same state and same payload; two `Pending`s are equal. */
  function EqResultFixed<T(==), E(==)>(lhs: Result<T, E>, rhs: Result<T, E>): (b: bool)
    ensures b <==> lhs == rhs
  {
    if lhs.Ok? && rhs.Ok? then lhs.value == rhs.value
    else if lhs.Err? && rhs.Err? then lhs.error == rhs.error
    else lhs.Pending? && rhs.Pending?
  }

  /** Wherever the written operator returns, and the states differ in kind only through `Err`, it agrees with the fixed one except for `Ok` against `Err`. */
  lemma EqResultAgreesWhenItReturns<T, E>(lhs: Result<T, E>, rhs: Result<T, E>)
    requires EqResult(lhs, rhs).Returns?
    requires !(lhs.Ok? && rhs.Err?) && !(lhs.Err? && rhs.Ok?)
    ensures EqResult(lhs, rhs).value == EqResultFixed(lhs, rhs)
  {
    EqResultCases(lhs, rhs);
  }

  /** `!=` between two results negates `==`, terminating whenever `==` does. */
  function NeResult<T(==), E(==)>(lhs: Result<T, E>, rhs: Result<T, E>): (b: Exit<bool>)
    ensures b.Fatal? <==> EqResult(lhs, rhs).Fatal?
    ensures b.Returns? ==> b.value == !EqResult(lhs, rhs).value
  {
    Then(EqResult(lhs, rhs), (x: bool) => Returns(!x))
  }

  /**
   `Result == Ok(v)` as written: before comparing it evaluates `lhs.value()`
   for a diagnostic line, so any non-`Ok` left side terminates.
   */
  function EqOk<T(==), E>(lhs: Result<T, E>, v: T): (b: Exit<bool>)
    ensures b.Fatal? <==> !lhs.Ok?
    ensures b.Returns? ==> (b.value <==> lhs == Ok(v))
  {
    Then(Value(lhs), (x: T) => Returns(lhs.Ok? && x == v))
  }

  /** What `EqOk` does: compares on `Ok`, terminates on `Err` and `Pending` instead of answering false. */
  lemma EqOkTerminatesUnlessOk<T, E>(lhs: Result<T, E>, v: T)
    ensures EqOk(lhs, v).Fatal? <==> !lhs.Ok?
    ensures lhs.Ok? ==> EqOk(lhs, v) == Returns(lhs.value == v)
  {
  }

  /** `Result == Ok(v)` as evidently intended: `is_ok() && value() == v`. */
  function EqOkFixed<T(==), E>(lhs: Result<T, E>, v: T): (b: bool)
    ensures b <==> lhs == Ok(v)
  {
    lhs.Ok? && lhs.value == v
  }

  /** `Result == Err(e)` (and `Err(e) == Result`): the result is `Err` holding exactly `e`. */
  function EqErr<T, E(==)>(lhs: Result<T, E>, e: E): (b: bool)
    ensures b <==> lhs == Err(e)
  {
    lhs.Err? && lhs.error == e
  }

  ////////////////////////////////////////////////////////////////////////////
  // The assertions in the header's doc comments and in its test
  ////////////////////////////////////////////////////////////////////////////

  function Succ(x: int): int { x + 1 }
  function Sq(x: int): Result<int, int> { Ok(x * x) }
  function Fail(x: int): Result<int, int> { Err(x) }

  lemma MapExamples()
    ensures Map<int, int, int>(Ok(2), Succ) == Ok(3)
    ensures !MapErr<int, int, int>(Ok(2), Succ).Err?
    ensures MapErr<int, int, int>(Err(3), Succ) == Err(4)
  {
  }

  lemma MapOrElseExamples()
    ensures MapOrElse<int, int, int>(Ok(2), _ => 42, x => x) == Returns(2)
    ensures MapOrElse<int, int, int>(Err(2), _ => 42, x => x) == Returns(42)
  {
  }

  /** The `and_then` chains, compared with `Result == Ok` and `Result == Err` as the doc does. */
  lemma AndThenExamples()
    ensures Then(AndThen(Ok(2), Sq), r => Then(AndThen(r, Sq), (s: Result<int, int>) => EqOk(s, 16))) == Returns(true)
    ensures Then(AndThen(Ok(2), Sq), r => AndThen(r, Fail)) == Returns(Err(4))
    ensures Then(AndThen(Ok(2), Fail), r => AndThen(r, Sq)) == Returns(Err(2))
    ensures Then(AndThen(Ok(2), Fail), r => AndThen(r, Fail)) == Returns(Err(2))
  {
  }

  lemma OrElseExamples()
    ensures Then(OrElse(Ok(2), Sq), r => OrElse(r, Sq)) == Returns(Ok(2))
    ensures Then(OrElse(Ok(2), Fail), r => OrElse(r, Sq)) == Returns(Ok(2))
    ensures Then(OrElse(Err(3), Sq), r => OrElse(r, Fail)) == Returns(Ok(9))
    ensures Then(OrElse(Err(3), Fail), r => OrElse(r, Fail)) == Returns(Err(3))
  {
  }

  lemma AccessorExamples()
    ensures Contains<int, int>(Ok(2), 2) && !Contains<int, int>(Ok(2), 3) && !Contains<int, int>(Err(2), 2)
    ensures !ContainsErr<int, int>(Ok(2), 2) && ContainsErr<int, int>(Err(2), 2) && !ContainsErr<int, int>(Err(3), 2)
    ensures ValueOr<int, int>(Ok(2), 3) == 2 && ValueOr<int, int>(Err(2), 3) == 3
    ensures ValueOrElse<int, int>(Ok(2), x => x) == Returns(2) && ValueOrElse<int, int>(Err(3), y => y) == Returns(3)
    ensures Emplace<string, int>(Err(2), "foo") == Ok("foo")
  {
  }

  /** The unit test: an `Ok(10)` compares equal with `Ok(10)`, an `Err("oops")` with that error. */
  lemma EqualityTestScenario()
    ensures EqOk<int, string>(Ok(10), 10) == Returns(true)
    ensures EqErr<int, string>(Err("oops"), "oops")
  {
  }
}
