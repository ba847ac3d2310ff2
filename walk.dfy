/**
 * The loop shape both entry points share: walk the entries in order, stop at
 * the first fatal error, pass over skipped entries and collect the rest.
 */
module Walk {
  import opened Wrappers
  import opened AttachmentTypes

  /** The collected items of `steps`, or the first error among them. */
  function Collect<B>(steps: seq<Outcome<B>>): (r: Result<seq<B>, AttachmentError>)
    ensures r.Success? ==> |r.value| <= |steps|
    decreases |steps|
  {
    if |steps| == 0 then Success([])
    else
      match Collect(steps[..|steps| - 1])
      case Failure(e) => Failure(e)
      case Success(items) =>
        match steps[|steps| - 1]
        case Fail(e) => Failure(e)
        case Skip(_) => Success(items)
        case Keep(b) => Success(items + [b])
  }

  /** The positions of the kept entries, in increasing order. */
  function KeptIndices<B>(steps: seq<Outcome<B>>): (r: seq<nat>)
    ensures forall j :: 0 <= j < |r| ==> r[j] < |steps| && steps[r[j]].Keep?
    ensures forall j, k :: 0 <= j < k < |r| ==> r[j] < r[k]
    ensures forall i :: 0 <= i < |steps| && steps[i].Keep? ==> i in r
    decreases |steps|
  {
    if |steps| == 0 then []
    else
      var prefix := KeptIndices(steps[..|steps| - 1]);
      if steps[|steps| - 1].Keep? then prefix + [|steps| - 1] else prefix
  }

  /** The walk fails exactly when some entry is a fatal error. */
  lemma {:induction false} CollectFailsIff<B>(steps: seq<Outcome<B>>)
    ensures Collect(steps).Failure? <==> exists i :: 0 <= i < |steps| && steps[i].Fail?
    decreases |steps|
  {
    if |steps| > 0 {
      var init := steps[..|steps| - 1];
      CollectFailsIff(init);
      assert forall i :: 0 <= i < |init| ==> init[i] == steps[i];
    }
  }

  /** The first fatal error is the one reported, whatever follows it. */
  lemma {:induction false} CollectFirstFailure<B>(steps: seq<Outcome<B>>, i: nat)
    requires i < |steps| && steps[i].Fail?
    requires forall j :: 0 <= j < i ==> !steps[j].Fail?
    ensures Collect(steps) == Failure(steps[i].error)
    decreases |steps|
  {
    var init := steps[..|steps| - 1];
    if i < |steps| - 1 {
      CollectFirstFailure(init, i);
    } else {
      CollectFailsIff(init);
    }
  }

  /** Once a prefix has failed, nothing after it changes the outcome. */
  lemma {:induction false} CollectStopsAtFailure<B>(steps: seq<Outcome<B>>, n: nat)
    requires n <= |steps| && Collect(steps[..n]).Failure?
    ensures Collect(steps) == Collect(steps[..n])
    decreases |steps| - n
  {
    if n < |steps| {
      var init := steps[..|steps| - 1];
      assert init[..n] == steps[..n];
      CollectStopsAtFailure(init, n);
    } else {
      assert steps[..n] == steps;
    }
  }

  /** The collected items are exactly the kept entries' items, in input order. */
  lemma {:induction false} CollectKeepsInOrder<B>(steps: seq<Outcome<B>>)
    requires Collect(steps).Success?
    ensures var items, kept := Collect(steps).value, KeptIndices(steps);
      |items| == |kept| && forall j :: 0 <= j < |kept| ==> steps[kept[j]] == Keep(items[j])
    decreases |steps|
  {
    if |steps| > 0 {
      CollectKeepsInOrder(steps[..|steps| - 1]);
    }
  }

  /** When every entry is kept, every item comes out and none is lost. */
  lemma {:induction false} CollectAllKept<B>(steps: seq<Outcome<B>>)
    requires forall i :: 0 <= i < |steps| ==> steps[i].Keep?
    ensures Collect(steps).Success? && |Collect(steps).value| == |steps|
    decreases |steps|
  {
    if |steps| > 0 {
      CollectAllKept(steps[..|steps| - 1]);
    }
  }

  /** When no entry is kept or fatal, the walk succeeds with nothing collected. */
  lemma {:induction false} CollectAllSkipped<B>(steps: seq<Outcome<B>>)
    requires forall i :: 0 <= i < |steps| ==> steps[i].Skip?
    ensures Collect(steps) == Success([])
    decreases |steps|
  {
    if |steps| > 0 {
      CollectAllSkipped(steps[..|steps| - 1]);
    }
  }

  /** A single kept entry collects exactly its item. */
  lemma CollectSingle<B>(steps: seq<Outcome<B>>, x: B)
    requires steps == [Keep(x)]
    ensures Collect(steps) == Success([x])
  {
    assert steps[..0] == [];
    assert Collect(steps[..0]) == Success([]);
    assert [] + [x] == [x];
  }

  /** One more skipped entry changes nothing. */
  lemma CollectSkipsOne<B>(steps: seq<Outcome<B>>, n: nat)
    requires n < |steps| && steps[n].Skip?
    ensures Collect(steps[..n + 1]) == Collect(steps[..n])
  {
    assert steps[..n + 1][..n] == steps[..n];
  }

  /** One more kept entry appends its item. */
  lemma CollectKeepsOne<B>(steps: seq<Outcome<B>>, n: nat, items: seq<B>)
    requires n < |steps| && steps[n].Keep?
    requires Collect(steps[..n]) == Success(items)
    ensures Collect(steps[..n + 1]) == Success(items + [steps[n].item])
  {
    assert steps[..n + 1][..n] == steps[..n];
  }

  /** A fatal entry after a clean prefix decides the whole walk. */
  lemma CollectFailsAt<B>(steps: seq<Outcome<B>>, n: nat)
    requires n < |steps| && steps[n].Fail?
    requires Collect(steps[..n]).Success?
    ensures Collect(steps) == Failure(steps[n].error)
  {
    assert steps[..n + 1][..n] == steps[..n];
    CollectStopsAtFailure(steps, n + 1);
  }
}
