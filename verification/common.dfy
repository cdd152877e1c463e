/** Shared wrappers: an optional value (a nullable reference in the source),
    the .NET exceptions the core can raise, and the outcome of a step that may
    throw after it has already changed some state (C# does not roll back). */
module Common {

  /** A value that may be absent (`null` in the source). */
  datatype Option<+T> = None | Some(value: T)

  /** The exceptions the modelled code can raise. */
  datatype Exception =
    | KeyNotFound          // Dictionary indexer on a missing key
    | DuplicateKey         // Dictionary.Add on a present key (an ArgumentException)
    | ArgumentOutOfRange   // the cursor switch's default arm
    | LoadError            // reading an embedded resource or loading its asset bundle failed

  /** A lookup that either yields a value or throws. */
  datatype Result<+T> = Success(value: T) | Failure(error: Exception)

  /** A state-changing step: it completes normally, or it throws, in which
      case `state` holds whatever was already changed before the throw. */
  datatype Completion<+S> = Normal(state: S) | Thrown(state: S, error: Exception)

  /** `s` has no element twice. */
  predicate NoDup<T(==)>(s: seq<T>) {
    forall i, j :: 0 <= i < j < |s| ==> s[i] != s[j]
  }

  /** `s` with every occurrence of `x` dropped, the rest in order. */
  function Without<T(==,!new)>(s: seq<T>, x: T): (r: seq<T>)
    ensures forall y :: y in r <==> y in s && y != x
    ensures |r| <= |s|
  {
    if s == [] then []
    else (if s[0] == x then [] else [s[0]]) + Without(s[1..], x)
  }

  /** Dropping `x` from a concatenation drops it from each part. */
  lemma {:induction false} WithoutAppend<T(!new)>(a: seq<T>, b: seq<T>, x: T)
    ensures Without(a + b, x) == Without(a, x) + Without(b, x)
  {
    if a == [] {
      assert a + b == b;
    } else {
      var head := if a[0] == x then [] else [a[0]];
      assert Without(a + b, x) == head + Without(a[1..] + b, x) by {
        assert (a + b)[0] == a[0];
        assert (a + b)[1..] == a[1..] + b;
      }
      WithoutAppend(a[1..], b, x);
      assert head + (Without(a[1..], x) + Without(b, x)) == (head + Without(a[1..], x)) + Without(b, x);
    }
  }

  /** Dropping an absent element changes nothing. */
  lemma {:induction false} WithoutAbsent<T(!new)>(s: seq<T>, x: T)
    requires x !in s
    ensures Without(s, x) == s
  {
    if s != [] {
      WithoutAbsent(s[1..], x);
    }
  }
}
