/** Values shared by every module: optional values, and results that carry
    the Python exception a step of the scraper lets escape. */
module Base {

  /** Python's `None`, or a value. */
  datatype Option<+T> = None | Some(value: T)

  /** The exceptions the modelled code raises and does not catch. */
  datatype PyError =
    | AttributeError      // `.group` on a failed regex search, `.casefold` on a list
    | ValueError          // unpacking a matching fragment that is not `left → right`
    | KeyError(key: string)
    | UnboundLocalError   // `value` read before any selected option bound it
    | NoSuchElement       // a required sub-node is missing, even via its fallback
    | IndexError          // no breadcrumb item to take the last of

  /** Either a value or the exception that interrupted its computation.
      Usable with `:-`. */
  datatype Result<+T> = Ok(value: T) | Err(error: PyError) {

    predicate IsFailure() {
      Err?
    }

    function PropagateFailure<U>(): Result<U>
      requires Err?
    {
      Err(error)
    }

    function Extract(): T
      requires Ok?
    {
      value
    }
  }

  /** The results of a run of steps, in order: all their values, or the
      exception of the first step that raised, which ends the run. */
  function Sequence<T>(rs: seq<Result<T>>): (r: Result<seq<T>>)
    ensures r.Ok? <==> forall i :: 0 <= i < |rs| ==> rs[i].Ok?
    ensures r.Ok? ==> |r.value| == |rs| && forall i :: 0 <= i < |rs| ==> r.value[i] == rs[i].value
    ensures r.Err? ==> exists i :: 0 <= i < |rs| && rs[i] == Err(r.error)
                                   && forall j :: 0 <= j < i ==> rs[j].Ok?
    decreases |rs|
  {
    if |rs| == 0 then Ok([])
    else if rs[0].Err? then Err(rs[0].error)
    else
      var rest := Sequence(rs[1..]);
      assert forall i :: 0 < i < |rs| ==> rs[1..][i - 1] == rs[i];
      if rest.Err? then Err(rest.error)
      else Ok([rs[0].value] + rest.value)
  }
}
