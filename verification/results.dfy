/** Failure-compatible wrappers and the Python exceptions the modelled code raises. */
module Results {

  datatype Option<+T> = None | Some(value: T)

  /** The exception kinds the modelled Python code can raise. */
  datatype Error =
    | KeyError(key: string)        // dict or table lookup of an absent key
    | IndexError                   // list/sequence subscript out of range
    | ValueError                   // wrong number of values to unpack, ambiguous truth value
    | TypeError                    // a NaN cell used where a string or list was expected
    | AttributeError               // a string method called on a NaN cell
    | ZeroDivisionError            // float division by zero
    | AssertionError(msg: string)  // a failed `assert`

  datatype Result<+T> = Ok(value: T) | Err(error: Error) {
    predicate IsFailure() {
      Err?
    }

    function PropagateFailure<U>(): Result<U>
      requires Err?
    {
      Err(error)
    }

    function Extract(): T
      requires Ok?
    {
      value
    }
  }

  /** A list comprehension over results: every value, or the first failure. */
  function Collect<T>(rs: seq<Result<T>>): (r: Result<seq<T>>)
    ensures r.Ok? <==> forall i :: 0 <= i < |rs| ==> rs[i].Ok?
    ensures r.Ok? ==> |r.value| == |rs| && forall i :: 0 <= i < |rs| ==> rs[i] == Ok(r.value[i])
    ensures r.Err? ==> (exists i :: 0 <= i < |rs| && rs[i] == Err(r.error) &&
                          forall j :: 0 <= j < i ==> rs[j].Ok?)
  {
    if |rs| == 0 then Ok([])
    else if rs[0].Err? then Err(rs[0].error)
    else
      var rest := Collect(rs[1..]);
      assert forall i :: 1 <= i < |rs| ==> rs[i] == rs[1..][i - 1];
      if rest.Err? then
        var k :| 0 <= k < |rs[1..]| && rs[1..][k] == Err(rest.error) && forall j :: 0 <= j < k ==> rs[1..][j].Ok?;
        assert rs[k + 1] == Err(rest.error);
        rest
      else Ok([rs[0].value] + rest.value)
  }
}
