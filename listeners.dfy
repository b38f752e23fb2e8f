/**
 * The connection's listener registry: a list in registration order, and the
 * notifications a broadcast sends along it.
 */
module Listeners {
  import opened Frames

  /** A registered ConnectionListener; two are the same when equals says so, here when the ids agree. */
  datatype Listener = Listener(id: nat)

  /** One callback made on a listener. */
  datatype Notice = MessageReceived(listener: Listener, message: Message) | ConnectionTerminated(listener: Listener)

  /** List.remove(Object): drops the first entry equal to l, if there is one. */
  function RemoveFirst(ls: seq<Listener>, l: Listener): (r: seq<Listener>)
    ensures |r| == if l in ls then |ls| - 1 else |ls|
  {
    if ls == [] then []
    else if ls[0] == l then ls[1..]
    else [ls[0]] + RemoveFirst(ls[1..], l)
  }

  /** Only the first match goes: everything before it and everything after it stays, in order. */
  lemma {:induction false} RemoveFirstAt(ls: seq<Listener>, l: Listener, i: nat)
    requires i < |ls| && ls[i] == l && forall k :: 0 <= k < i ==> ls[k] != l
    ensures RemoveFirst(ls, l) == ls[..i] + ls[i + 1..]
  {
    if i > 0 {
      RemoveFirstAt(ls[1..], l, i - 1);
      assert ls[1..][..i - 1] == ls[1..i];
      assert ls[1..][i..] == ls[i + 1..];
      assert [ls[0]] + ls[1..i] == ls[..i];
    }
  }

  /** Removing a listener that is not registered changes nothing. */
  lemma {:induction false} RemoveFirstAbsent(ls: seq<Listener>, l: Listener)
    requires l !in ls
    ensures RemoveFirst(ls, l) == ls
  {
    if ls != [] {
      assert l !in ls[1..];
      RemoveFirstAbsent(ls[1..], l);
    }
  }

  /** A removal takes exactly one occurrence of l out of the list, and nothing else. */
  lemma {:induction false} RemoveFirstCount(ls: seq<Listener>, l: Listener)
    ensures multiset(RemoveFirst(ls, l)) == multiset(ls) - multiset{l}
  {
    if ls != [] {
      assert ls == [ls[0]] + ls[1..];
      RemoveFirstCount(ls[1..], l);
    }
  }

  /** A listener registered twice is still registered after one removal; the later registration survives. */
  lemma {:induction false} RemoveFirstKeepsLater(ls: seq<Listener>, l: Listener)
    requires l in ls
    ensures RemoveFirst(ls + [l], l) == RemoveFirst(ls, l) + [l]
  {
    if ls[0] != l {
      assert (ls + [l])[1..] == ls[1..] + [l];
      RemoveFirstKeepsLater(ls[1..], l);
    } else {
      assert (ls + [l])[1..] == ls[1..] + [l];
    }
  }

  /** Adding a new listener and removing it again restores the registry. */
  lemma AddThenRemove(ls: seq<Listener>, l: Listener)
    requires l !in ls
    ensures RemoveFirst(ls + [l], l) == ls
  {
    RemoveFirstAt(ls + [l], l, |ls|);
    assert (ls + [l])[..|ls|] == ls;
  }

  /** messageReceived on every listener, in list order. */
  function Broadcast(ls: seq<Listener>, m: Message): (r: seq<Notice>)
    ensures |r| == |ls|
  {
    seq(|ls|, k requires 0 <= k < |ls| => MessageReceived(ls[k], m))
  }

  /** connectionTerminated on every listener, in list order. */
  function Terminated(ls: seq<Listener>): (r: seq<Notice>)
    ensures |r| == |ls|
  {
    seq(|ls|, k requires 0 <= k < |ls| => ConnectionTerminated(ls[k]))
  }
}
