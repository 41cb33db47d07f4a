/** Shared vocabulary: the Python exceptions the program raises and catches,
    results that carry them, and two sequence helpers used by several modules. */
module Common {

  /** The exception classes that `classes.py` raises and `input_error` catches. */
  datatype Error = ValueError | IndexError | KeyError

  /** A value, or the exception raised while computing it. */
  datatype Result<+T> = Success(value: T) | Failure(error: Error)

  /** How a method that returns `None` in Python ended. */
  datatype Outcome = Returned | Raised(error: Error)

  /** `x` or Python's `None`. */
  datatype Option<+T> = None | Some(value: T)

  /** The outcome of a computation, forgetting its value. */
  function OutcomeOf<T>(r: Result<T>): Outcome
  {
    match r
    case Success(_) => Returned
    case Failure(e) => Raised(e)
  }

  /** The state after an update that either produced `r` or raised before changing `current`. */
  function StateAfter<T>(r: Result<T>, current: T): T
  {
    match r
    case Success(v) => v
    case Failure(_) => current
  }

  /** A second update of the same key overrides the first. */
  lemma UpdateTwice<K, V>(m: map<K, V>, k: K, a: V, b: V)
    ensures m[k := a][k := b] == m[k := b]
  {
  }

  /** No element occurs twice. */
  predicate Distinct<T(==)>(s: seq<T>)
  {
    forall i, j :: 0 <= i < j < |s| ==> s[i] != s[j]
  }

  /** `[y for y in s if y != x]`. */
  function Without<T(==)>(s: seq<T>, x: T): seq<T>
  {
    if s == [] then []
    else if s[0] == x then Without(s[1..], x)
    else [s[0]] + Without(s[1..], x)
  }

  /** Filtering out `x` removes every copy of `x` and keeps every other element, with its count. */
  lemma {:induction false} WithoutCounts<T>(s: seq<T>, x: T)
    ensures multiset(Without(s, x)) == multiset(s)[x := 0]
    ensures forall y :: y in Without(s, x) <==> y in s && y != x
  {
    if s != [] {
      WithoutCounts(s[1..], x);
      assert s == [s[0]] + s[1..];
      assert multiset(s) == multiset{s[0]} + multiset(s[1..]);
    }
  }

  /** Filtering out an absent element changes nothing. */
  lemma {:induction false} WithoutAbsent<T>(s: seq<T>, x: T)
    requires x !in s
    ensures Without(s, x) == s
  {
    if s != [] {
      WithoutAbsent(s[1..], x);
    }
  }

  /** Filtering keeps a duplicate-free sequence duplicate-free. */
  lemma {:induction false} WithoutDistinct<T>(s: seq<T>, x: T)
    requires Distinct(s)
    ensures Distinct(Without(s, x))
  {
    if s != [] {
      assert Distinct(s[1..]) by {
        forall i, j | 0 <= i < j < |s[1..]| ensures s[1..][i] != s[1..][j] {
          assert s[1..][i] == s[i + 1] && s[1..][j] == s[j + 1];
        }
      }
      WithoutDistinct(s[1..], x);
      WithoutCounts(s[1..], x);
      if s[0] != x {
        var r := Without(s, x);
        assert r == [s[0]] + Without(s[1..], x);
        assert s[0] !in s[1..];
        forall i, j | 0 <= i < j < |r| ensures r[i] != r[j] {
          if i == 0 {
            assert r[j] in Without(s[1..], x);
          } else {
            assert r[i] == Without(s[1..], x)[i - 1] && r[j] == Without(s[1..], x)[j - 1];
          }
        }
      }
    }
  }
}
