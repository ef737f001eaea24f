/**
  Runs of a deterministic step function: the states a run passes through and the labels
  of the steps it takes. The solver's loop is described as such a run.
 */
module Traces {
  import opened Wrappers

  /**
    `states` and `labels` are a run of `next`: step i leaves states[i] with label
    labels[i] and arrives at states[i+1].
   */
  ghost predicate IsTrace<S, L>(next: S -> Option<(L, S)>, states: seq<S>, labels: seq<L>)
  {
    && |states| == |labels| + 1
    && forall i :: 0 <= i < |labels| ==> next(states[i]) == Some((labels[i], states[i + 1]))
  }

  /** Step i of a run. */
  lemma TraceStep<S, L>(next: S -> Option<(L, S)>, states: seq<S>, labels: seq<L>, i: nat)
    requires IsTrace(next, states, labels) && i < |labels|
    ensures next(states[i]) == Some((labels[i], states[i + 1]))
  {
  }

  /** A run goes on by one more step from its last state. */
  lemma TraceExtend<S, L>(next: S -> Option<(L, S)>, states: seq<S>, labels: seq<L>, x: L, s: S)
    requires IsTrace(next, states, labels)
    requires next(states[|labels|]) == Some((x, s))
    ensures IsTrace(next, states + [s], labels + [x])
    ensures (states + [s])[0] == states[0]
  {
    var states', labels' := states + [s], labels + [x];
    forall i | 0 <= i < |labels'|
      ensures next(states'[i]) == Some((labels'[i], states'[i + 1]))
    {
      if i < |labels| {
        assert states'[i] == states[i] && states'[i + 1] == states[i + 1] && labels'[i] == labels[i];
      }
    }
  }

  /** Two runs from the same state agree on every step both of them took. */
  lemma {:induction false} TracesAgree<S, L>(next: S -> Option<(L, S)>, states: seq<S>, labels: seq<L>,
                                             states': seq<S>, labels': seq<L>, k: nat)
    requires IsTrace(next, states, labels) && IsTrace(next, states', labels')
    requires states[0] == states'[0]
    requires k <= |labels| && k <= |labels'|
    ensures states[k] == states'[k]
    ensures forall i :: 0 <= i < k ==> labels[i] == labels'[i]
  {
    if k > 0 {
      TracesAgree(next, states, labels, states', labels', k - 1);
      assert next(states[k - 1]) == Some((labels[k - 1], states[k]));
      assert next(states'[k - 1]) == Some((labels'[k - 1], states'[k]));
    }
  }

  /** Two runs from the same state that both end where `next` stops are the same run. */
  lemma StoppedTracesAgree<S, L>(next: S -> Option<(L, S)>, states: seq<S>, labels: seq<L>,
                                 states': seq<S>, labels': seq<L>)
    requires IsTrace(next, states, labels) && IsTrace(next, states', labels')
    requires states[0] == states'[0]
    requires next(states[|labels|]).None? && next(states'[|labels'|]).None?
    ensures states == states' && labels == labels'
  {
    if |labels| < |labels'| {
      TracesAgree(next, states, labels, states', labels', |labels|);
      TraceStep(next, states', labels', |labels|);
      assert false;
    } else if |labels'| < |labels| {
      TracesAgree(next, states, labels, states', labels', |labels'|);
      TraceStep(next, states, labels, |labels'|);
      assert false;
    } else {
      TracesAgree(next, states, labels, states', labels', |labels|);
      forall i | 0 <= i < |states|
        ensures states[i] == states'[i]
      {
        if i < |labels| {
          TracesAgree(next, states, labels, states', labels', i);
        }
      }
    }
  }
}
