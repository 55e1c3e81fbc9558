/**
 The task records of the to-do screen and the value-level meaning of the
 operations that change the list of them. The list is kept newest-first.
 */
module TaskList {

  datatype Option<T> = None | Some(value: T)

  /** One entry of the list: its text, whether it is done, and its creation time
      (an ISO-8601 string, also used as the rendering key). */
  datatype Task = Task(title: string, status: bool, timestamp: string)

  /** The sequence in the opposite order: what Array.prototype.reverse leaves. */
  function Reverse<T>(s: seq<T>): (r: seq<T>)
    ensures |r| == |s|
  {
    if s == [] then [] else Reverse(s[1..]) + [s[0]]
  }

  /** Position k of the reversed sequence holds the element k places from the end. */
  lemma {:induction false} ReverseAt<T>(s: seq<T>, k: nat)
    requires k < |s|
    ensures Reverse(s)[k] == s[|s| - 1 - k]
  {
    if k < |s| - 1 {
      ReverseAt(s[1..], k);
    }
  }

  /** Reversing twice gives back the original order. */
  lemma {:induction false} ReverseReverse<T>(s: seq<T>)
    ensures Reverse(Reverse(s)) == s
  {
    forall k | 0 <= k < |s|
      ensures Reverse(Reverse(s))[k] == s[k]
    {
      ReverseAt(Reverse(s), k);
      ReverseAt(s, |s| - 1 - k);
    }
  }

  /** Reverse, push at the end, reverse again: the new element ends up first and
      every earlier element follows it in its original order. */
  lemma {:induction false} ReversePushReverse<T>(s: seq<T>, x: T)
    ensures Reverse(Reverse(s) + [x]) == [x] + s
  {
    var pushed := Reverse(s) + [x];
    forall k | 0 <= k < |s| + 1
      ensures Reverse(pushed)[k] == ([x] + s)[k]
    {
      ReverseAt(pushed, k);
      if k > 0 {
        ReverseAt(s, |s| - k);
      }
    }
  }

  /** The list after `splice(i, 1)`: entry i is gone, the entries before it stay
      where they were and the entries after it move down by one. */
  function Removed<T>(s: seq<T>, i: nat): (r: seq<T>)
    requires i < |s|
    ensures |r| == |s| - 1
    ensures forall j :: 0 <= j < i ==> r[j] == s[j]
    ensures forall j :: i <= j < |r| ==> r[j] == s[j + 1]
  {
    s[..i] + s[i + 1..]
  }

  /** Removing an entry takes exactly one copy of it out of the list's contents. */
  lemma RemovedMultiset<T>(s: seq<T>, i: nat)
    requires i < |s|
    ensures multiset(Removed(s, i)) == multiset(s) - multiset{s[i]}
  {
    assert s == s[..i] + [s[i]] + s[i + 1..];
  }

  /** No two entries share a timestamp. The list does not enforce this. */
  predicate UniqueTimestamps(s: seq<Task>)
  {
    forall j, k :: 0 <= j < k < |s| ==> s[j].timestamp != s[k].timestamp
  }

  /** When timestamps are unique, the removed entry's timestamp is nowhere in the
      remaining list. */
  lemma RemovedIsGone(s: seq<Task>, i: nat)
    requires i < |s|
    requires UniqueTimestamps(s)
    ensures forall t :: t in Removed(s, i) ==> t.timestamp != s[i].timestamp
  {
  }

  /** Without unique records, removing one entry can leave an equal one behind:
      the removed task need not be absent from the result. */
  lemma DuplicateSurvivesRemoval(t: Task)
    ensures t in Removed([t, t], 0)
  {
  }

  /** The list after `tasks[i].status = st`: only that entry's status changes. */
  function WithStatus(s: seq<Task>, i: nat, st: bool): (r: seq<Task>)
    requires i < |s|
    ensures |r| == |s|
    ensures r[i].status == st
    ensures forall j :: 0 <= j < |s| ==>
      r[j].title == s[j].title && r[j].timestamp == s[j].timestamp
    ensures forall j :: 0 <= j < |s| && j != i ==> r[j] == s[j]
  {
    s[i := s[i].(status := st)]
  }

  /** Setting a status and then setting it back restores the list. */
  lemma SetStatusBack(s: seq<Task>, i: nat, st: bool)
    requires i < |s|
    ensures WithStatus(WithStatus(s, i, st), i, s[i].status) == s
  {
  }

  /** Marking a task done and then pending leaves it as it was, with status false. */
  lemma DoneThenPending(s: seq<Task>, i: nat)
    requires i < |s|
    ensures WithStatus(WithStatus(s, i, true), i, false) == WithStatus(s, i, false)
  {
  }
}
