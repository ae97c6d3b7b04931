/** Failure-carrying wrappers and the Python built-in exceptions the modelled
    code can raise on its own (as opposed to the engine-related errors). */
module Base {

  datatype Option<+T> = None | Some(value: T)

  datatype Result<+T, +E> = Ok(value: T) | Err(error: E)

  /** Built-in exceptions raised by the Python code itself: a failed tuple
      unpacking or `int()` conversion (ValueError), an index past the end of
      a list (IndexError), a variable read before any assignment
      (UnboundLocalError), `input()` at end of file (EOFError), and a tool
      missing from the PATH (FileNotFoundError). */
  datatype Builtin = ValueError | IndexError | UnboundLocalError | EOFError | FileNotFoundError

  /** `f` applied to every element of `xs`, in order (a list comprehension). */
  function MapSeq<A, B>(f: A -> B, xs: seq<A>): (r: seq<B>)
    ensures |r| == |xs|
    decreases |xs|
  {
    if xs == [] then [] else [f(xs[0])] + MapSeq(f, xs[1..])
  }

  /** Concatenation regroups freely. */
  lemma AppendAssoc<T>(x: seq<T>, y: seq<T>, z: seq<T>)
    ensures (x + y) + z == x + (y + z)
  {
  }

  /** The k-th element of the image is the image of the k-th element. */
  lemma {:induction false} MapSeqAt<A, B>(f: A -> B, xs: seq<A>, k: nat)
    requires k < |xs|
    ensures MapSeq(f, xs)[k] == f(xs[k])
    decreases k
  {
    if k > 0 {
      MapSeqAt(f, xs[1..], k - 1);
    }
  }

  /** The values of `rs` in order, or the first error among them. */
  function AllOk<T, E>(rs: seq<Result<T, E>>): (r: Result<seq<T>, E>)
    ensures r.Ok? ==> |r.value| == |rs|
    decreases |rs|
  {
    if rs == [] then Ok([])
    else if rs[0].Err? then Err(rs[0].error)
    else
      var rest := AllOk(rs[1..]);
      if rest.Err? then Err(rest.error) else Ok([rs[0].value] + rest.value)
  }

  /** All succeed exactly when each does, and then the values are theirs;
      otherwise the error is that of the first failure. */
  lemma {:induction false} AllOkMeaning<T, E>(rs: seq<Result<T, E>>)
    ensures AllOk(rs).Ok? <==> forall i :: 0 <= i < |rs| ==> rs[i].Ok?
    ensures AllOk(rs).Ok? ==> forall i :: 0 <= i < |rs| ==> AllOk(rs).value[i] == rs[i].value
    ensures AllOk(rs).Err? ==>
      exists i :: 0 <= i < |rs| && rs[i] == Err(AllOk(rs).error) && (forall j :: 0 <= j < i ==> rs[j].Ok?)
    decreases |rs|
  {
    if rs != [] {
      var rest := rs[1..];
      AllOkMeaning(rest);
      assert forall i :: 0 < i < |rs| ==> rs[i] == rest[i - 1];
      if AllOk(rs).Err? && rs[0].Ok? {
        var i :| 0 <= i < |rest| && rest[i] == Err(AllOk(rest).error)
          && forall j :: 0 <= j < i ==> rest[j].Ok?;
        assert rs[i + 1] == Err(AllOk(rs).error);
      }
    }
  }
}
