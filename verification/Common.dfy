/** Small shared vocabulary: optional values, results that carry the one error
    distinction the gateway's verdict needs, and joining names with dots. */
module Common {

  datatype Option<+T> = None | Some(value: T)

  /** `NotImplemented` is an error wrapping the parser's sentinel of that name, which
      the validator reports as a complicated query; `Invalid` is every other error. */
  datatype Failure = NotImplemented | Invalid

  datatype Result<+T> = Ok(value: T) | Err(error: Failure) {
    predicate IsFailure() {
      Err?
    }

    function PropagateFailure<U>(): Result<U>
      requires Err?
    {
      Err(error)
    }

    function Extract(): T
      requires Ok?
    {
      value
    }
  }

  /** Name parts separated by dots. */
  function JoinDots(parts: seq<string>): string {
    if |parts| == 0 then ""
    else if |parts| == 1 then parts[0]
    else parts[0] + "." + JoinDots(parts[1..])
  }

  lemma JoinThree(a: string, b: string, c: string)
    ensures JoinDots([a, b, c]) == a + "." + b + "." + c
  {
    assert [a, b, c][1..] == [b, c] && [b, c][1..] == [c];
    assert JoinDots([b, c]) == b + "." + c;
    assert a + "." + (b + "." + c) == a + "." + b + "." + c;
  }

  lemma CountConcat<T>(a: seq<T>, b: seq<T>, x: T)
    ensures multiset(a + b)[x] == multiset(a)[x] + multiset(b)[x]
  {
    assert multiset(a + b) == multiset(a) + multiset(b);
  }

  predicate Distinct<T(==)>(xs: seq<T>) {
    forall i, j | 0 <= i < j < |xs| :: xs[i] != xs[j]
  }
}
