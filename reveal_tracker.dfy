/** The reveal set of the scroll-animation hook: every intersection callback
    adds the id of each intersecting entry to a set, and nothing is ever
    removed.  Content blocks only ask whether an id is in the set. */
module RevealTracker {

  /** One intersection-observer entry: the observed element's id and whether
      it currently satisfies the visibility predicate. */
  datatype Entry = Entry(targetId: string, isIntersecting: bool)

  /** The state updater `prev => new Set([...prev, id])`: the ids of `prev`
      and `id`, and nothing else; re-adding a present id changes nothing. */
  function AddId(prev: set<string>, id: string): (next: set<string>)
    ensures forall x :: x in next <==> x in prev || x == id
    ensures id in prev ==> next == prev
  {
    prev + {id}
  }

  /** The ids a batch reports as intersecting, whatever their order. */
  function IntersectingIds(entries: seq<Entry>): set<string> {
    set i | 0 <= i < |entries| && entries[i].isIntersecting :: entries[i].targetId
  }

  /** One callback invocation: the entries are visited in order and each
      intersecting one queues an `AddId` update. */
  function ApplyBatch(prev: set<string>, entries: seq<Entry>): (next: set<string>)
    ensures prev <= next
    decreases |entries|
  {
    if entries == [] then prev
    else
      var e := entries[0];
      ApplyBatch(if e.isIntersecting then AddId(prev, e.targetId) else prev, entries[1..])
  }

  /** The ids of a batch are those of its first entry and those of the rest. */
  lemma IntersectingIdsCons(entries: seq<Entry>)
    requires entries != []
    ensures IntersectingIds(entries)
         == (if entries[0].isIntersecting then {entries[0].targetId} else {}) + IntersectingIds(entries[1..])
  {
  }

  /** Appending an entry to a batch adds at most its id. */
  lemma IntersectingIdsSnoc(entries: seq<Entry>, e: Entry)
    ensures IntersectingIds(entries + [e])
         == IntersectingIds(entries) + (if e.isIntersecting then {e.targetId} else {})
  {
    var all := entries + [e];
    forall x | x in IntersectingIds(entries)
      ensures x in IntersectingIds(all)
    {
      var i :| 0 <= i < |entries| && entries[i].isIntersecting && entries[i].targetId == x;
      assert all[i] == entries[i];
    }
    forall x | x in IntersectingIds(all) && x !in IntersectingIds(entries)
      ensures e.isIntersecting && x == e.targetId
    {
      var i :| 0 <= i < |all| && all[i].isIntersecting && all[i].targetId == x;
    }
    if e.isIntersecting {
      assert all[|entries|] == e;
    }
  }

  /** A batch adds exactly the ids of its intersecting entries: the old set
      stays, non-intersecting entries add nothing, and no other id appears. */
  lemma {:induction false} ApplyBatchAddsIntersecting(prev: set<string>, entries: seq<Entry>)
    ensures ApplyBatch(prev, entries) == prev + IntersectingIds(entries)
    decreases |entries|
  {
    if entries != [] {
      var e := entries[0];
      var prev' := if e.isIntersecting then AddId(prev, e.targetId) else prev;
      ApplyBatchAddsIntersecting(prev', entries[1..]);
      IntersectingIdsCons(entries);
    }
  }

  /** Delivering the same batch again changes nothing: re-adding an id that
      is already present leaves the set as it is. */
  lemma ApplyBatchIdempotent(prev: set<string>, entries: seq<Entry>)
    ensures ApplyBatch(ApplyBatch(prev, entries), entries) == ApplyBatch(prev, entries)
  {
    ApplyBatchAddsIntersecting(prev, entries);
    ApplyBatchAddsIntersecting(ApplyBatch(prev, entries), entries);
  }

  /** The reveal set after a session of callback batches, starting from the
      empty set the hook's state is created with. */
  function Replay(batches: seq<seq<Entry>>): set<string>
    decreases |batches|
  {
    if batches == [] then {}
    else ApplyBatch(Replay(batches[..|batches| - 1]), batches[|batches| - 1])
  }

  /** Some batch of the session reported `id` as intersecting. */
  ghost predicate EverIntersecting(batches: seq<seq<Entry>>, id: string) {
    exists b, i :: 0 <= b < |batches| && 0 <= i < |batches[b]|
      && batches[b][i].isIntersecting && batches[b][i].targetId == id
  }

  /** An id is revealed exactly when some batch has reported it intersecting;
      an id never reported is never revealed. */
  lemma {:induction false} RevealedIffEverIntersecting(batches: seq<seq<Entry>>, id: string)
    ensures id in Replay(batches) <==> EverIntersecting(batches, id)
    decreases |batches|
  {
    if batches != [] {
      var n := |batches| - 1;
      var init := batches[..n];
      RevealedIffEverIntersecting(init, id);
      ApplyBatchAddsIntersecting(Replay(init), batches[n]);
      if EverIntersecting(init, id) {
        var b, i :| 0 <= b < |init| && 0 <= i < |init[b]|
          && init[b][i].isIntersecting && init[b][i].targetId == id;
        assert batches[b] == init[b];
      }
      if EverIntersecting(batches, id) {
        var b, i :| 0 <= b < |batches| && 0 <= i < |batches[b]|
          && batches[b][i].isIntersecting && batches[b][i].targetId == id;
        if b < n {
          assert init[b] == batches[b];
        } else {
          assert id in IntersectingIds(batches[n]);
        }
      }
    }
  }

  /** The reveal set only grows: what a prefix of the session revealed stays
      revealed after the whole session. */
  lemma {:induction false} ReplayMonotone(batches: seq<seq<Entry>>, k: nat)
    requires k <= |batches|
    ensures Replay(batches[..k]) <= Replay(batches)
    decreases |batches|
  {
    if k < |batches| {
      var n := |batches| - 1;
      assert batches[..k] == batches[..n][..k];
      ReplayMonotone(batches[..n], k);
    } else {
      assert batches[..k] == batches;
    }
  }
}
