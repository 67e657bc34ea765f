/** Small datatypes shared by every module of the model. */
module Common {

  /** Go's nil-able pointers and optional columns. */
  datatype Option<+T> = None | Some(value: T) {
    function GetOr(default: T): T {
      if Some? then value else default
    }
  }

  /** Go's (value, error) returns. */
  datatype Result<+T, +E> = Ok(value: T) | Err(error: E)

  /** The state after one step for each input, in order. */
  function Fold<S, T>(step: (S, T) -> S, s: S, inputs: seq<T>): S
    decreases |inputs|
  {
    if inputs == [] then s else Fold(step, step(s, inputs[0]), inputs[1..])
  }

  lemma {:induction false} FoldAppend<S, T>(step: (S, T) -> S, s: S, a: seq<T>, b: seq<T>)
    ensures Fold(step, s, a + b) == Fold(step, Fold(step, s, a), b)
    decreases |a|
  {
    if a == [] {
      assert a + b == b;
    } else {
      assert (a + b)[1..] == a[1..] + b;
      FoldAppend(step, step(s, a[0]), a[1..], b);
    }
  }

  lemma FoldOne<S, T>(step: (S, T) -> S, s: S, x: T)
    ensures Fold(step, s, [x]) == step(s, x)
  {
    assert [x][1..] == [];
  }
}
