/** Consumers of the outbox: events may arrive in any order and more than once, and the highest version wins. */
module Replay {
  import opened Wrappers

  datatype Versioned<T> = Versioned(version: int, payload: T)

  /** What a consumer keeps after the events have arrived one after the other. */
  function Replayed<T>(events: seq<Versioned<T>>): Option<Versioned<T>>
    decreases |events|
  {
    if events == [] then None
    else
      var kept, e := Replayed(events[..|events| - 1]), events[|events| - 1];
      if kept.Some? && e.version <= kept.value.version then kept else Some(e)
  }

  ghost predicate Ascending<T(!new)>(events: seq<Versioned<T>>) {
    forall i, j :: 0 <= i < j < |events| ==> events[i].version < events[j].version
  }

  /** The same events, in any order and any number of times. */
  ghost predicate Delivers<T(!new)>(sent: seq<Versioned<T>>, delivered: seq<Versioned<T>>) {
    forall e :: e in sent <==> e in delivered
  }

  lemma {:induction false} ReplayedIsNewest<T(!new)>(events: seq<Versioned<T>>)
    ensures Replayed(events).None? <==> events == []
    ensures events != [] ==> Replayed(events).value in events
    ensures forall e :: e in events ==> e.version <= Replayed(events).value.version
    decreases |events|
  {
    if events != [] {
      ReplayedIsNewest(events[..|events| - 1]);
      assert events == events[..|events| - 1] + [events[|events| - 1]];
    }
  }

  /** With ascending versions every delivery ends in the event that was sent last. */
  lemma AnyDeliveryAgrees<T(!new)>(sent: seq<Versioned<T>>, delivered: seq<Versioned<T>>)
    requires Ascending(sent) && Delivers(sent, delivered)
    ensures Replayed(delivered) == if sent == [] then None else Some(sent[|sent| - 1])
  {
    ReplayedIsNewest(delivered);
    if sent != [] {
      assert sent[|sent| - 1] in delivered;
    }
  }

  /** So does a delivery of an event whose version is above all others, wherever it was sent. */
  lemma HighestWins<T(!new)>(sent: seq<Versioned<T>>, delivered: seq<Versioned<T>>, i: nat)
    requires i < |sent| && Delivers(sent, delivered)
    requires forall j :: 0 <= j < |sent| && j != i ==> sent[j].version < sent[i].version
    ensures Replayed(delivered) == Some(sent[i])
  {
    ReplayedIsNewest(delivered);
    assert sent[i] in delivered;
    var newest := Replayed(delivered).value;
    assert newest in sent;
    var j :| 0 <= j < |sent| && sent[j] == newest;
  }
}
