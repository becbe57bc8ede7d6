/**
 * The dispatcher `process_files_parallel` (src/parallel.rs). Rayon's indexed
 * `par_iter().map(..).collect()` keeps input order, so its result is the
 * element-wise map; the model computes it sequentially into an output array
 * and keeps the progress bar as a counter.
 */
module Parallel {

  /** The part of an `indicatif::ProgressBar` that the dispatcher changes: its position. */
  class ProgressBar {
    const length: nat
    var position: nat

    /** `ProgressBar::new(length)`. */
    constructor (length: nat)
      ensures this.length == length && position == 0
    {
      this.length := length;
      position := 0;
    }

    /** `pb.inc(delta)`. */
    method Inc(delta: nat)
      modifies this
      ensures position == old(position) + delta
    {
      position := position + delta;
    }
  }

  /**
   * `process_files_parallel(files, process_fn)`: one result per input, in
   * input order, and a progress position equal to the bar's length when it is
   * finished. The ghost `invoked` lists the arguments `process_fn` was called
   * with, in order.
   */
  method ProcessFilesParallel<E, T(0)>(files: seq<E>, processFn: E -> T)
    returns (results: seq<T>, finalPosition: nat, ghost invoked: seq<E>)
    ensures |results| == |files|
    ensures forall i :: 0 <= i < |files| ==> results[i] == processFn(files[i])
    ensures finalPosition == |files|
    ensures invoked == files
  {
    var pb := new ProgressBar(|files|);
    var out := new T[|files|];
    invoked := [];
    for i := 0 to |files|
      invariant pb.length == |files| && pb.position == i
      invariant invoked == files[..i]
      invariant forall j :: 0 <= j < i ==> out[j] == processFn(files[j])
    {
      pb.Inc(1);
      out[i] := processFn(files[i]);
      invoked := invoked + [files[i]];
    }
    results := out[..];
    finalPosition := pb.position;
  }
}
