/** The event scheduler (src/core_interfaces.c:150-195): an intrusive list kept in due order. */
module Scheduler {
  import opened Words

  class Event {
    const due: u64
    const hasCallback: bool
    var next: Event?

    constructor (due: u64, hasCallback: bool)
      ensures this.due == due && this.hasCallback == hasCallback && next == null
    {
      this.due, this.hasCallback, this.next := due, hasCallback, null;
    }
  }

  // ---------------------------------------------------------------- lists as sequences

  ghost predicate Distinct(s: seq<Event>) { forall i, j :: 0 <= i < j < |s| ==> s[i] != s[j] }

  ghost predicate Sorted(s: seq<Event>) { forall i, j :: 0 <= i < j < |s| ==> s[i].due <= s[j].due }

  /** Events due no later than `now` at the front of a list. */
  ghost function DueCount(s: seq<Event>, now: u64): (n: nat)
    ensures n <= |s|
    ensures forall i :: 0 <= i < n ==> s[i].due <= now
    ensures n < |s| ==> s[n].due > now
  {
    if s == [] || s[0].due > now then 0
    else
      var m := DueCount(s[1..], now);
      assert m < |s[1..]| ==> s[1..][m] == s[m + 1];
      assert forall i :: 0 <= i < m ==> s[1..][i] == s[i + 1];
      m + 1
  }

  /** Insertion after every event that is due no later. */
  ghost function Inserted(s: seq<Event>, ev: Event): seq<Event> {
    var k := DueCount(s, ev.due);
    s[..k] + [ev] + s[k..]
  }

  /** The first event due after `now` ends the due prefix of a sorted list. */
  lemma DueCountUnique(s: seq<Event>, now: u64, k: nat)
    requires Sorted(s) && k <= |s|
    requires forall i :: 0 <= i < k ==> s[i].due <= now
    requires k < |s| ==> s[k].due > now
    ensures DueCount(s, now) == k
  {
  }

  /** Where each element of the longer list comes from. */
  lemma InsertedAt(s: seq<Event>, ev: Event, i: nat)
    requires i < |s| + 1
    ensures |Inserted(s, ev)| == |s| + 1
    ensures var k := DueCount(s, ev.due); Inserted(s, ev)[i] == if i < k then s[i] else if i == k then ev else s[i - 1]
  {
    hide DueCount;
  }

  lemma InsertedIs(s: seq<Event>, ev: Event)
    ensures var k := DueCount(s, ev.due); Inserted(s, ev) == s[..k] + [ev] + s[k..]
  {
    hide DueCount;
  }

  /** Insertion keeps the list sorted, ... */
  lemma InsertedSorted(s: seq<Event>, ev: Event)
    requires Sorted(s)
    ensures Sorted(Inserted(s, ev))
  {
    var k, t := DueCount(s, ev.due), Inserted(s, ev);
    assert k < |s| ==> s[k].due > ev.due;
    hide Inserted, DueCount;
    InsertedAt(s, ev, 0);
    forall i, j | 0 <= i < j < |t|
      ensures t[i].due <= t[j].due
    {
      InsertedAt(s, ev, i);
      InsertedAt(s, ev, j);
      assert k < j - 1 ==> s[k].due <= s[j - 1].due;
    }
  }

  /** ... without repetition, ... */
  lemma InsertedDistinct(s: seq<Event>, ev: Event)
    requires Distinct(s) && ev !in s
    ensures Distinct(Inserted(s, ev))
  {
    hide DueCount;
  }

  /** ... and adds exactly the one event. */
  lemma InsertedContents(s: seq<Event>, ev: Event)
    ensures multiset(Inserted(s, ev)) == multiset(s) + multiset{ev}
  {
    var k := DueCount(s, ev.due);
    hide DueCount;
    assert s == s[..k] + s[k..];
  }

  /** First come, first served: among events with the same due cycle the new one comes last. */
  lemma InsertedLastAmongEquals(s: seq<Event>, ev: Event, i: nat)
    requires Sorted(s) && i < |s| && s[i].due == ev.due
    ensures i < DueCount(s, ev.due)
  {
  }

  class Queue {
    var head: Event?
    /** The events from `head` on. */
    ghost var list: seq<Event>

    /** Following `next` from `head` visits exactly `list`, which is sorted and without repetition. */
    ghost predicate Valid()
      reads this, list
    {
      && Linked(head, list)
      && Distinct(list) && Sorted(list)
      && (forall e :: e in list ==> e.hasCallback)
    }

    constructor ()
      ensures Valid() && list == []
    {
      head, list := null, [];
    }

    /** Walks to the first event due later than `due`. */
    method FindPlace(due: u64) returns (prev: Event?, cur: Event?, ghost k: nat)
      requires Valid()
      ensures k == DueCount(list, due)
      ensures cur == (if k < |list| then list[k] else null)
      ensures prev == (if k == 0 then null else list[k - 1])
    {
      hide Sorted, Distinct, DueCount;
      prev, cur, k := null, head, 0;
      while cur != null && cur.due <= due
        invariant 0 <= k <= |list| && Valid()
        invariant cur == (if k < |list| then list[k] else null)
        invariant prev == (if k == 0 then null else list[k - 1])
        invariant forall i :: 0 <= i < k ==> list[i].due <= due
        decreases |list| - k
      {
        assert list[k].next == if k + 1 < |list| then list[k + 1] else null;
        prev := cur;
        cur := cur.next;
        k := k + 1;
      }
      DueCountUnique(list, due, k);
    }

    /** Insert by due cycle; refused without a callback. */
    method Schedule(ev: Event) returns (ok: bool)
      requires Valid() && ev !in list
      modifies this, list, ev
      ensures ok == ev.hasCallback
      ensures Valid()
      ensures list == if ok then Inserted(old(list), ev) else old(list)
    {
      hide Sorted, Inserted, DueCount;
      if !ev.hasCallback { return false; }
      ghost var was := list;
      var prev, cur, k := FindPlace(ev.due);
      InsertedSorted(was, ev);
      InsertedDistinct(was, ev);
      ev.next := cur;
      if prev == null { head := ev; } else { prev.next := ev; }
      list := Inserted(was, ev);
      InsertedIs(was, ev);
      LinkChecked(was, ev, k);
      ok := true;
    }

    /** The relinked list is the inserted one. */
    lemma LinkChecked(was: seq<Event>, ev: Event, k: nat)
      requires k <= |was| && list == was[..k] + [ev] + was[k..]
      requires head == if k == 0 then ev else was[0]
      requires ev.next == if k < |was| then was[k] else null
      requires k > 0 ==> was[k - 1].next == ev
      requires forall i {:trigger was[i].next} :: 0 <= i < |was| && i != k - 1 ==> was[i].next == if i + 1 < |was| then was[i + 1] else null
      ensures Linked(head, list)
    {
      forall i | 0 <= i < |list|
        ensures list[i].next == if i + 1 < |list| then list[i + 1] else null
      {
        if i > k { assert list[i] == was[i - 1]; }
      }
    }

    method NextDue() returns (due: Option<u64>)
      requires Valid()
      ensures due == if list == [] then None else Some(list[0].due)
      ensures due.Some? ==> forall e :: e in list ==> due.value <= e.due
    {
      if head == null { return None; }
      due := Some(head.due);
    }

    /** Unlinks the first event. */
    method TakeFirst() returns (ev: Event)
      requires Valid() && list != []
      modifies this, head
      ensures Valid() && list == old(list)[1..] && ev == old(list)[0] && ev.next == null
    {
      hide Sorted;
      ev := head;
      head := ev.next;
      ev.next := null;
      list := list[1..];
      assert Sorted(list) by { TailSorted(old(list)); }
    }

    /** Runs the callbacks of the events due by `now`, in list order; `ran` is the order in which they
        are called. Callbacks leave the list alone. */
    method RunDue(now: u64) returns (ran: seq<Event>)
      requires Valid()
      modifies this, list
      ensures Valid()
      ensures ran == old(list)[..DueCount(old(list), now)]
      ensures list == old(list)[DueCount(old(list), now)..]
      ensures forall i :: 0 <= i < |ran| ==> ran[i].due <= now && ran[i].next == null
      ensures list != [] ==> now < list[0].due
    {
      hide Sorted, DueCount;
      ghost var was := list;
      ran := [];
      assert Distinct(was) && Sorted(was);
      while head != null && head.due <= now
        invariant Valid() && |ran| <= |was| && ran == was[..|ran|] && list == was[|ran|..]
        invariant forall i :: 0 <= i < |ran| ==> ran[i].due <= now && ran[i].next == null
        decreases |was| - |ran|
      {
        assert head == was[|ran|];
        var ev := TakeFirst();
        ran := ran + [ev];
      }
      DueCountUnique(was, now, |ran|);
    }
  }

  lemma TailSorted(s: seq<Event>)
    requires Sorted(s) && s != []
    ensures Sorted(s[1..])
  {
  }

  ghost predicate Linked(head: Event?, s: seq<Event>)
    reads s
  {
    && (head == if s == [] then null else s[0])
    && (forall i {:trigger s[i].next} :: 0 <= i < |s| ==> s[i].next == if i + 1 < |s| then s[i + 1] else null)
  }
}
