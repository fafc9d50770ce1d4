/** Ring ORAM: the slots that leave the server. A history says which slots were handed out and when buckets
    were rewritten. */
module RingHistory {
  import opened HeapTree
  import opened RingTrace

  datatype Event =
    | HandedOut(node: nat, slot: nat)
    | Rewritten(node: nat)
    | Restarted

  /** The slot has been handed out since its bucket was last written. */
  ghost predicate IsOut(history: seq<Event>, node: nat, slot: nat)
  {
    history != [] &&
    var n := |history| - 1;
    history[n] == HandedOut(node, slot)
    || (history[n] != Rewritten(node) && history[n] != Restarted && IsOut(history[..n], node, slot))
  }

  /** Nothing is handed out that is already out. */
  ghost predicate OnceOnly(history: seq<Event>)
  {
    history == [] ||
    var n := |history| - 1;
    && OnceOnly(history[..n])
    && (history[n].HandedOut? ==> !IsOut(history[..n], history[n].node, history[n].slot))
  }

  lemma {:induction false} OutAfter(history: seq<Event>, event: Event, node: nat, slot: nat)
    ensures IsOut(history + [event], node, slot)
       <==> event == HandedOut(node, slot) || (event != Rewritten(node) && event != Restarted && IsOut(history, node, slot))
    ensures OnceOnly(history + [event])
       <==> OnceOnly(history) && (event.HandedOut? ==> !IsOut(history, event.node, event.slot))
  {
    assert (history + [event])[..|history|] == history;
  }

  /** A slot stays out until its bucket is rewritten. */
  lemma {:induction false} StaysOut(history: seq<Event>, i: nat, k: nat, node: nat, slot: nat)
    requires i < k <= |history| && history[i] == HandedOut(node, slot)
    requires forall m :: i < m < k ==> history[m] != Rewritten(node) && history[m] != Restarted
    ensures IsOut(history[..k], node, slot)
  {
    assert history[..k][..k - 1] == history[..k - 1];
    if i < k - 1 {
      StaysOut(history, i, k - 1, node, slot);
    }
  }

  lemma {:induction false} OncePrefix(history: seq<Event>, k: nat)
    requires OnceOnly(history) && k <= |history|
    ensures OnceOnly(history[..k])
  {
    if k < |history| {
      OncePrefix(history[..|history| - 1], k);
      assert history[..|history| - 1][..k] == history[..k];
    } else {
      assert history[..k] == history;
    }
  }

  /** Between two times that a slot is handed out, its bucket is rewritten. */
  lemma {:induction false} RewrittenBetween(history: seq<Event>, i: nat, j: nat)
    requires OnceOnly(history) && i < j < |history| && history[i] == history[j] && history[i].HandedOut?
    ensures exists m :: i < m < j && (history[m] == Rewritten(history[i].node) || history[m] == Restarted)
  {
    OncePrefix(history, j + 1);
    assert history[..j + 1][..j] == history[..j];
    if forall m :: i < m < j ==> history[m] != Rewritten(history[i].node) && history[m] != Restarted {
      StaysOut(history, i, j, history[i].node, history[i].slot);
      assert false;
    }
  }

  /** The first k slots of a path. */
  ghost function Handed(path: seq<nat>, offsets: seq<nat>, k: nat): (events: seq<Event>)
    requires k <= |path| && k <= |offsets|
    ensures |events| == k && forall i :: 0 <= i < k ==> events[i] == HandedOut(path[i], offsets[i])
  {
    seq(k, i requires 0 <= i < k => HandedOut(path[i], offsets[i]))
  }

  // ----- the history and the commands -----

  datatype Touch = SlotTaken(node: nat) | BucketReplaced(node: nat)

  /** One slot of every node. */
  function SlotsTaken(path: seq<nat>): (t: seq<Touch>)
    ensures |t| == |path|
  {
    seq(|path|, i requires 0 <= i < |path| => SlotTaken(path[i]))
  }

  /** The buckets touched since the tree was sent, from the commands. */
  function Asked(depth: nat, trace: seq<Command>): seq<Touch>
  {
    if trace == [] then [] else
      var n := |trace| - 1;
      match trace[n]
      case InitTree => []
      case XorSlots(leaf) => Asked(depth, trace[..n]) + SlotsTaken(PathNodes(depth, leaf))
      case ReplaceBucket(node) => Asked(depth, trace[..n]) + [BucketReplaced(node)]
      case _ => Asked(depth, trace[..n])
  }

  /** The same from the history. */
  function Touched(history: seq<Event>): seq<Touch>
  {
    if history == [] then [] else
      var n := |history| - 1;
      match history[n]
      case Restarted => []
      case HandedOut(node, _) => Touched(history[..n]) + [SlotTaken(node)]
      case Rewritten(node) => Touched(history[..n]) + [BucketReplaced(node)]
  }

  lemma {:induction false} AskedAfter(depth: nat, trace: seq<Command>, command: Command)
    ensures Asked(depth, trace + [command])
         == match command
            case InitTree => []
            case XorSlots(leaf) => Asked(depth, trace) + SlotsTaken(PathNodes(depth, leaf))
            case ReplaceBucket(node) => Asked(depth, trace) + [BucketReplaced(node)]
            case _ => Asked(depth, trace)
  {
    assert (trace + [command])[..|trace|] == trace;
  }

  lemma {:induction false} TouchedAfter(history: seq<Event>, event: Event)
    ensures Touched(history + [event])
         == match event
            case Restarted => []
            case HandedOut(node, _) => Touched(history) + [SlotTaken(node)]
            case Rewritten(node) => Touched(history) + [BucketReplaced(node)]
  {
    assert (history + [event])[..|history|] == history;
  }

  lemma {:induction false} TouchedAlong(history: seq<Event>, path: seq<nat>, offsets: seq<nat>, k: nat)
    requires k <= |path| && k <= |offsets|
    ensures Touched(history + Handed(path, offsets, k)) == Touched(history) + SlotsTaken(path[..k])
  {
    hide Touched;
    if k == 0 {
      assert history + Handed(path, offsets, 0) == history;
    } else {
      TouchedAlong(history, path, offsets, k - 1);
      assert history + Handed(path, offsets, k)
          == history + Handed(path, offsets, k - 1) + [HandedOut(path[k - 1], offsets[k - 1])];
      TouchedAfter(history + Handed(path, offsets, k - 1), HandedOut(path[k - 1], offsets[k - 1]));
      assert SlotsTaken(path[..k]) == SlotsTaken(path[..k - 1]) + [SlotTaken(path[k - 1])];
    }
  }
}
