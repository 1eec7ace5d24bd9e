/** Sequential passes in which every output is computed from its own input and
    from all the outputs computed before it. */
module Scans {

  /** The outputs of such a pass over `inputs`: output `i` is
      `step(outputs before i, inputs[i])`. */
  function Scan<T>(inputs: seq<T>, step: (seq<T>, T) -> T): (r: seq<T>)
    ensures |r| == |inputs|
  {
    if inputs == [] then []
    else
      var done := Scan(inputs[..|inputs| - 1], step);
      done + [step(done, inputs[|inputs| - 1])]
  }

  lemma PrefixOfPrefix<T>(s: seq<T>, i: nat, j: nat)
    requires i <= j <= |s|
    ensures s[..j][..i] == s[..i]
  {
  }

  lemma TakeOfAppend<T>(a: seq<T>, b: seq<T>, i: nat)
    requires i <= |a|
    ensures (a + b)[..i] == a[..i]
  {
  }

  /** The pass over one more input adds one output, computed from the
      outputs before it. */
  lemma ScanExtend<T>(inputs: seq<T>, step: (seq<T>, T) -> T, i: nat)
    requires i < |inputs|
    ensures Scan(inputs[..i + 1], step) == Scan(inputs[..i], step) + [step(Scan(inputs[..i], step), inputs[i])]
  {
    PrefixOfPrefix(inputs, i, i + 1);
  }

  /** The first `i` outputs depend only on the first `i` inputs. */
  lemma {:induction false} ScanPrefix<T>(inputs: seq<T>, step: (seq<T>, T) -> T, i: nat)
    requires i <= |inputs|
    ensures Scan(inputs, step)[..i] == Scan(inputs[..i], step)
    decreases |inputs|
  {
    if i < |inputs| {
      var n := |inputs| - 1;
      var done := Scan(inputs[..n], step);
      assert Scan(inputs, step) == done + [step(done, inputs[n])];
      TakeOfAppend(done, [step(done, inputs[n])], i);
      ScanPrefix(inputs[..n], step, i);
      PrefixOfPrefix(inputs, i, n);
    } else {
      assert inputs[..i] == inputs;
    }
  }

  /** Output `i` is the step applied to the outputs before it and input `i`. */
  lemma ScanAt<T>(inputs: seq<T>, step: (seq<T>, T) -> T, i: nat)
    requires i < |inputs|
    ensures Scan(inputs, step)[i] == step(Scan(inputs, step)[..i], inputs[i])
  {
    var r := Scan(inputs, step);
    ScanPrefix(inputs, step, i + 1);
    ScanPrefix(inputs, step, i);
    ScanExtend(inputs, step, i);
    PrefixOfPrefix(r, i, i + 1);
    assert r[i] == r[..i + 1][i];
  }

  /** A relation that every step keeps between its input and its output
      holds between each input and its output of the whole pass. */
  lemma ScanKeeps<T>(inputs: seq<T>, step: (seq<T>, T) -> T, keep: (T, T) -> bool)
    requires forall done, x :: keep(x, step(done, x))
    ensures forall i :: 0 <= i < |inputs| ==> keep(inputs[i], Scan(inputs, step)[i])
  {
    forall i | 0 <= i < |inputs|
      ensures keep(inputs[i], Scan(inputs, step)[i])
    {
      ScanAt(inputs, step, i);
    }
  }
}
