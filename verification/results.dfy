/** A success/failure result that works with Dafny's `:-` operator.
    It stands for the exceptions of the modelled program: an `Err` is a
    raised exception, an `Ok` a normal return. */
module Results {

  /** A value that may be absent. */
  datatype Option<+T> = None | Some(value: T)

  datatype Result<+T, +E> = Ok(value: T) | Err(error: E) {

    predicate IsFailure() {
      Err?
    }

    function PropagateFailure<U>(): Result<U, E>
      requires Err?
    {
      Err(error)
    }

    function Extract(): T
      requires Ok?
    {
      value
    }
  }

  /** The values of a sequence of results, or the first error among them:
      what a loop that raises on the first failing element computes. */
  function AllOk<T, E(==)>(rs: seq<Result<T, E>>): (r: Result<seq<T>, E>)
    ensures r.Ok? <==> forall i :: 0 <= i < |rs| ==> rs[i].Ok?
    ensures r.Ok? ==> |r.value| == |rs| && forall i :: 0 <= i < |rs| ==> r.value[i] == rs[i].value
    ensures r.Err? ==>
      exists i :: 0 <= i < |rs| && rs[i].Err? && rs[i].error == r.error && forall j :: 0 <= j < i ==> rs[j].Ok?
  {
    if |rs| == 0 then Ok([])
    else if rs[0].Err? then Err(rs[0].error)
    else
      var rest := AllOk(rs[1..]);
      if rest.Err? then
        var i :| 0 <= i < |rs[1..]| && rs[1..][i].Err? && rs[1..][i].error == rest.error
          && forall j :: 0 <= j < i ==> rs[1..][j].Ok?;
        assert rs[i + 1] == rs[1..][i];
        assert forall j :: 1 <= j < i + 1 ==> rs[j] == rs[1..][j - 1];
        Err(rest.error)
      else
        assert forall i :: 1 <= i < |rs| ==> rs[i] == rs[1..][i - 1];
        Ok([rs[0].value] + rest.value)
  }
}
