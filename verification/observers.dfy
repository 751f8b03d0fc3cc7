/** ObservableGame: an ordered list of registered observers. Observers are
    opaque identities; delivering an event to one is recorded as a Delivery. */
module Observers {
  import opened Events

  datatype Delivery<O> = Delivery(observer: O, event: Event)

  function Count<O(==)>(obs: seq<O>, o: O): nat {
    if |obs| == 0 then 0 else Count(obs[..|obs| - 1], o) + (if obs[|obs| - 1] == o then 1 else 0)
  }

  /** addObserver appends, duplicates allowed. */
  function AddObserver<O(==)>(obs: seq<O>, o: O): (r: seq<O>)
    ensures |r| == |obs| + 1 && r[..|obs|] == obs && r[|obs|] == o
    ensures Count(r, o) == Count(obs, o) + 1
  {
    assert (obs + [o])[..|obs|] == obs;
    obs + [o]
  }

  /** The position of the first registration of o. */
  function FirstIndex<O(==)>(obs: seq<O>, o: O): (i: nat)
    requires o in obs
    ensures i < |obs| && obs[i] == o && o !in obs[..i]
  {
    if obs[0] == o then 0
    else
      var j := FirstIndex(obs[1..], o);
      assert obs[..j + 1] == [obs[0]] + obs[1..][..j];
      j + 1
  }

  /** List.remove(Object): drops the first occurrence, if any. */
  function RemoveObserver<O(==)>(obs: seq<O>, o: O): (r: seq<O>)
    ensures o !in obs ==> r == obs
    ensures o in obs ==> exists i :: 0 <= i < |obs| && obs[i] == o && o !in obs[..i] && r == obs[..i] + obs[i + 1..]
    ensures multiset(r) == multiset(obs) - multiset{o}
  {
    if o in obs then
      var i := FirstIndex(obs, o);
      assert obs == obs[..i] + [obs[i]] + obs[i + 1..];
      obs[..i] + obs[i + 1..]
    else
      obs
  }

  /** notifyObservers: one delivery per registered observer, in order. */
  function Notify<O>(obs: seq<O>, e: Event): (r: seq<Delivery<O>>)
    ensures |r| == |obs|
    ensures forall i :: 0 <= i < |obs| ==> r[i] == Delivery(obs[i], e)
  {
    if |obs| == 0 then [] else Notify(obs[..|obs| - 1], e) + [Delivery(obs[|obs| - 1], e)]
  }

  /** Publishing a whole event log: each event in turn to the same list. */
  function NotifyAll<O>(obs: seq<O>, log: seq<Event>): seq<Delivery<O>> {
    if |log| == 0 then [] else NotifyAll(obs, log[..|log| - 1]) + Notify(obs, log[|log| - 1])
  }

  /** The events one observer saw, in the order it saw them. */
  function ReceivedBy<O(==)>(ds: seq<Delivery<O>>, o: O): seq<Event> {
    if |ds| == 0 then []
    else ReceivedBy(ds[..|ds| - 1], o) + (if ds[|ds| - 1].observer == o then [ds[|ds| - 1].event] else [])
  }

  function Repeat(e: Event, n: nat): (r: seq<Event>)
    ensures |r| == n && forall i :: 0 <= i < n ==> r[i] == e
  {
    if n == 0 then [] else Repeat(e, n - 1) + [e]
  }

  lemma {:induction false} ReceivedByConcat<O>(a: seq<Delivery<O>>, b: seq<Delivery<O>>, o: O)
    ensures ReceivedBy(a + b, o) == ReceivedBy(a, o) + ReceivedBy(b, o)
    decreases |b|
  {
    if |b| == 0 {
      assert a + b == a;
    } else {
      assert (a + b)[..|a + b| - 1] == a + b[..|b| - 1];
      ReceivedByConcat(a, b[..|b| - 1], o);
    }
  }

  /** One notify call reaches an observer once per registration. */
  lemma {:induction false} NotifyReachesEachRegistration<O>(obs: seq<O>, e: Event, o: O)
    ensures ReceivedBy(Notify(obs, e), o) == Repeat(e, Count(obs, o))
  {
    if |obs| > 0 {
      var init := obs[..|obs| - 1];
      NotifyReachesEachRegistration(init, e, o);
      ReceivedByConcat(Notify(init, e), [Delivery(obs[|obs| - 1], e)], o);
      assert ReceivedBy([Delivery(obs[|obs| - 1], e)], o)
          == (if obs[|obs| - 1] == o then [e] else []) by {
        assert [Delivery(obs[|obs| - 1], e)][..0] == [];
      }
    }
  }

  /** An observer registered exactly once sees the whole log, in emission order. */
  lemma {:induction false} SingleObserverSeesLog<O>(obs: seq<O>, log: seq<Event>, o: O)
    requires Count(obs, o) == 1
    ensures ReceivedBy(NotifyAll(obs, log), o) == log
  {
    if |log| > 0 {
      var init := log[..|log| - 1];
      SingleObserverSeesLog(obs, init, o);
      ReceivedByConcat(NotifyAll(obs, init), Notify(obs, log[|log| - 1]), o);
      NotifyReachesEachRegistration(obs, log[|log| - 1], o);
      assert log == init + [log[|log| - 1]];
    }
  }

  lemma {:induction false} CountZeroReceivesNothing<O>(obs: seq<O>, log: seq<Event>, o: O)
    requires Count(obs, o) == 0
    ensures ReceivedBy(NotifyAll(obs, log), o) == []
  {
    if |log| > 0 {
      var init := log[..|log| - 1];
      CountZeroReceivesNothing(obs, init, o);
      ReceivedByConcat(NotifyAll(obs, init), Notify(obs, log[|log| - 1]), o);
      NotifyReachesEachRegistration(obs, log[|log| - 1], o);
    }
  }

  lemma {:induction false} CountIsMultiplicity<O>(obs: seq<O>, o: O)
    ensures Count(obs, o) == multiset(obs)[o]
  {
    if |obs| > 0 {
      CountIsMultiplicity(obs[..|obs| - 1], o);
      assert obs == obs[..|obs| - 1] + [obs[|obs| - 1]];
    }
  }

  /** After removing an observer that was registered once, it receives
      nothing from any later events. */
  lemma RemovedObserverHearsNothing<O>(obs: seq<O>, o: O, later: seq<Event>)
    requires Count(obs, o) == 1
    ensures ReceivedBy(NotifyAll(RemoveObserver(obs, o), later), o) == []
  {
    var r := RemoveObserver(obs, o);
    CountIsMultiplicity(obs, o);
    CountIsMultiplicity(r, o);
    CountZeroReceivesNothing(r, later, o);
  }
}
