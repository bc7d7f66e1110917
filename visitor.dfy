/** What a visitor callback of the parser does to the outside world: it
    pushes records onto the result list and writes diagnostics to the
    error stream. A callback is modelled as a function from one visit to
    those effects, and a walk as the effects of its visits in order. */
module Visitor {
  import opened Types
  import opened DirectiveValidator
  import opened Traversal

  /** The records one callback pushes and the diagnostics it writes. */
  datatype Effects = Effects(pushed: seq<ParsedDirective>, emitted: seq<Diagnostic>)

  /** The effects of calling `step` on each of `visits`, in order: every
      callback's records after those of the callbacks before it, and the
      same for its diagnostics. */
  function Run(visits: seq<Visit>, step: Visit --> Effects): Effects
    requires forall k :: 0 <= k < |visits| ==> step.requires(visits[k])
    decreases |visits|
  {
    if visits == [] then Effects([], [])
    else
      var before := Run(visits[..|visits| - 1], step);
      var last := step(visits[|visits| - 1]);
      Effects(before.pushed + last.pushed, before.emitted + last.emitted)
  }

  /** Extending a walk by one visit adds that visit's effects at the end. */
  lemma RunSnoc(visits: seq<Visit>, i: nat, step: Visit --> Effects)
    requires i < |visits|
    requires forall k :: 0 <= k < |visits| ==> step.requires(visits[k])
    ensures Run(visits[..i + 1], step)
      == Effects(Run(visits[..i], step).pushed + step(visits[i]).pushed,
                 Run(visits[..i], step).emitted + step(visits[i]).emitted)
  {
    assert visits[..i + 1][..i] == visits[..i];
  }
}
