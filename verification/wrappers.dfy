/** Option and Result, used for the places where the Rust code returns an `Option`, a
    `Result`, or panics on malformed input (a panic is modelled as a failure value). */
module Wrappers {

  datatype Option<+T> = None | Some(value: T) {

    predicate IsFailure() {
      None?
    }

    function PropagateFailure<U>(): Option<U>
      requires None?
    {
      None
    }

    function Extract(): T
      requires Some?
    {
      value
    }
  }

  datatype Result<+T, +E> = Ok(value: T) | Err(error: E) {

    predicate IsFailure() {
      Err?
    }

    function PropagateFailure<U>(): Result<U, E>
      requires Err?
    {
      Err(error)
    }

    function Extract(): T
      requires Ok?
    {
      value
    }
  }

  /** `collect::<Result<Vec<_>, _>>()`: all the values when every result succeeds,
      otherwise the error of the first failure. */
  function AllOk<T, E>(rs: seq<Result<T, E>>): (r: Result<seq<T>, E>)
    ensures r.Ok? <==> forall i :: 0 <= i < |rs| ==> rs[i].Ok?
    ensures r.Ok? ==> |r.value| == |rs| && forall i :: 0 <= i < |rs| ==> rs[i] == Ok(r.value[i])
    ensures r.Err? ==>
      exists k :: (0 <= k < |rs| && rs[k] == Err(r.error)
        && forall j :: 0 <= j < k ==> rs[j].Ok?)
    decreases |rs|
  {
    if |rs| == 0 then Ok([])
    else if rs[0].Err? then Err(rs[0].error)
    else
      var rest := AllOk(rs[1..]);
      if rest.Err? then
        assert exists k :: (0 <= k < |rs| && rs[k] == Err(rest.error)
          && forall j :: 0 <= j < k ==> rs[j].Ok?) by {
          var k :| 0 <= k < |rs[1..]| && rs[1..][k] == Err(rest.error)
            && forall j :: 0 <= j < k ==> rs[1..][j].Ok?;
          assert rs[k + 1] == Err(rest.error);
        }
        Err(rest.error)
      else
        Ok([rs[0].value] + rest.value)
  }

  /** Results that all succeed collect to their values. */
  lemma AllOkValues<T, E>(rs: seq<Result<T, E>>, vs: seq<T>)
    requires |rs| == |vs| && forall i :: 0 <= i < |rs| ==> rs[i] == Ok(vs[i])
    ensures AllOk(rs) == Ok(vs)
  {
    var r := AllOk(rs);
    assert r.Ok?;
    assert r.value == vs;
  }
}
