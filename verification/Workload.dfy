/** Request streams for the translation layers, and what a plain array would answer. */
module Workload {
  import opened Flash
  import opened Options

  datatype Op = ReadOp(la: nat) | WriteOp(la: nat, payload: Data) | TrimOp(la: nat)

  /** What the last write among the first n operations stored at la, unless la was trimmed since. */
  ghost function LastWritten(ops: seq<Op>, n: nat, la: nat): Option<Data>
    requires n <= |ops|
  {
    if n == 0 then None
    else if ops[n - 1].la != la then LastWritten(ops, n - 1, la)
    else match ops[n - 1]
      case WriteOp(_, d) => Some(d)
      case TrimOp(_) => None
      case ReadOp(_) => LastWritten(ops, n - 1, la)
  }

  /** Every read served of a page that is written delivered the bytes last written to it. */
  ghost predicate ReadsRight(ops: seq<Op>, n: nat, outs: seq<Data>)
    requires n <= |ops|
  {
    && |outs| == n
    && forall i :: 0 <= i < n && ops[i].ReadOp? && LastWritten(ops, i, ops[i].la).Some? ==>
         LastWritten(ops, i, ops[i].la) == Some(outs[i])
  }

  lemma {:induction false} ReadsStep(ops: seq<Op>, n: nat, outs: seq<Data>, bytes: Data)
    requires n < |ops| && ReadsRight(ops, n, outs)
    requires ops[n].ReadOp? && LastWritten(ops, n, ops[n].la).Some? ==> LastWritten(ops, n, ops[n].la) == Some(bytes)
    ensures ReadsRight(ops, n + 1, outs + [bytes])
  {
    hide LastWritten;
  }
}
