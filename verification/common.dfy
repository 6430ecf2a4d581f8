/** Option and Result values shared by the strip model and the controller model. */
module Common {

  datatype Option<+T> = None | Some(value: T)

  /** The exceptions the modelled Python code can raise. */
  datatype Error =
    | MalformedHex     // ValueError raised by int(text, 16)
    | NegativeChannel  // a channel whose value is negative, which no 8-bit channel can hold
    | MissingKey       // KeyError: a pattern entry with neither start/end nor position
    | ZeroDivision     // ZeroDivisionError: advancing the wipe counter modulo an empty strip

  /** A computation that either yields a value or raises one of the errors above. */
  datatype Result<+T> = Ok(value: T) | Err(error: Error) {

    predicate IsFailure() {
      Err?
    }

    function PropagateFailure<U>(): Result<U>
      requires Err?
    {
      Err(error)
    }

    function Extract(): T
      requires Ok?
    {
      value
    }
  }
}

/** Facts about integer division the effect models share. */
module Arith {

  /** A number's remainder is fixed by any quotient-remainder split. */
  lemma ModUnique(a: nat, n: nat, q: nat, r: nat)
    requires 0 <= r < n && a == q * n + r
    ensures a % n == r
  {
    var q', r' := a / n, a % n;
    assert a == q' * n + r';
    if q > q' {
      MulAtLeast(q - q', n);
    } else if q < q' {
      MulAtLeast(q' - q, n);
    }
  }

  lemma MulAtLeast(x: nat, n: nat)
    requires x >= 1
    ensures x * n >= n
  {
  }
}
