/** Failure values for the modelled scripts.

    The scripts signal every problem by letting a Python exception escape;
    `Fault` names the exceptions that the modelled code can raise, and
    `Result` carries either a value or the fault that ended the computation.
    A script that writes its output line by line is summarised by `Emitted`:
    the lines it handed to `write` and, if it stopped early, why. */
module Results {

  datatype Option<+T> = None | Some(value: T)

  /** The Python exceptions that the modelled code raises. */
  datatype Fault =
    | IndexError                              // a list index out of range
    | KeyError(key: string)                   // a dict lookup of a missing key
    | UnpackError(expected: nat, got: nat)    // ValueError from tuple unpacking
    | TypeError                               // hashing an unhashable object
    | NameError(name: string)                 // a name that is never bound

  datatype Result<+T> = Ok(value: T) | Err(fault: Fault) {

    predicate IsFailure() {
      Err?
    }

    function PropagateFailure<U>(): Result<U>
      requires Err?
    {
      Err(fault)
    }

    function Extract(): T
      requires Ok?
    {
      value
    }
  }

  /** The lines a script wrote, in order, and the fault that stopped it, if any. */
  datatype Emitted = Emitted(lines: seq<string>, fault: Option<Fault>)

  /** The output of several steps run one after the other: each step's lines
      in order, up to and including the first step that faults. */
  function Concat(steps: seq<Emitted>): (r: Emitted)
    ensures r.fault.None? <==> forall j :: 0 <= j < |steps| ==> steps[j].fault.None?
  {
    if |steps| == 0 then Emitted([], None)
    else if steps[0].fault.Some? then steps[0]
    else
      var rest := Concat(steps[1..]);
      assert forall j :: 1 <= j < |steps| ==> steps[1..][j - 1] == steps[j];
      Emitted(steps[0].lines + rest.lines, rest.fault)
  }

  /** A run stops at its first faulting step `j`: the steps before `j`
      complete, and the run writes their lines followed by the lines of step
      `j`, and ends with the fault of step `j`. */
  lemma {:induction false} ConcatStops(steps: seq<Emitted>, j: nat)
    requires j < |steps| && steps[j].fault.Some?
    requires forall k :: 0 <= k < j ==> steps[k].fault.None?
    ensures Concat(steps[..j]).fault.None?
    ensures Concat(steps) == Emitted(Concat(steps[..j]).lines + steps[j].lines, steps[j].fault)
    decreases j
  {
    if j == 0 {
      assert steps[..0] == [];
    } else {
      var tail := steps[1..];
      assert forall k :: 0 <= k < j - 1 ==> tail[k] == steps[k + 1];
      ConcatStops(tail, j - 1);
      var pre := steps[..j];
      assert pre[0] == steps[0] && pre[1..] == tail[..j - 1];
      assert tail[j - 1] == steps[j];
      var front := Concat(tail[..j - 1]).lines;
      assert Concat(pre).lines == steps[0].lines + front;
      assert steps[0].lines + (front + steps[j].lines) == (steps[0].lines + front) + steps[j].lines;
    }
  }

  /** Steps that each complete with `count` lines give `|steps| * count`
      lines. */
  lemma {:induction false} ConcatLength(steps: seq<Emitted>, count: nat)
    requires forall j :: 0 <= j < |steps| ==> steps[j].fault.None? && |steps[j].lines| == count
    ensures |Concat(steps).lines| == |steps| * count
    decreases |steps|
  {
    if |steps| > 0 {
      ConcatLength(steps[1..], count);
      assert (|steps| - 1) * count + count == |steps| * count;
    }
  }

  /** Line `j * count + i` of such an output is line `i` of step `j`. */
  lemma {:induction false} ConcatLine(steps: seq<Emitted>, count: nat, j: nat, i: nat)
    requires forall k :: 0 <= k < |steps| ==> steps[k].fault.None? && |steps[k].lines| == count
    requires j < |steps| && i < count
    ensures j * count + i < |Concat(steps).lines|
    ensures Concat(steps).lines[j * count + i] == steps[j].lines[i]
    decreases j
  {
    ConcatLength(steps, count);
    var rest := Concat(steps[1..]);
    assert Concat(steps).lines == steps[0].lines + rest.lines;
    if j > 0 {
      ConcatLine(steps[1..], count, j - 1, i);
      assert steps[1..][j - 1] == steps[j];
      assert j * count + i == count + ((j - 1) * count + i);
    }
  }
}
