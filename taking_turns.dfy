/**
  `TakingTurnsQueue`: a round-robin turn scheduler. People are registered with a
  number of turns (zero or less means unlimited); each call hands out the person
  at the head and puts them back at the tail unless their turns are used up.

  The first half of the module is the value-level specification: a snapshot
  `Slot` of each queue entry, the pure step `NextPerson`/`NextQueue`, and what a
  run of steps does. The second half is the object-level model: the classes
  `Entry` and `TakingTurnsQueue`, whose methods are proved against that step.
*/
module TakingTurns {
  import opened Errors

  /** The value returned to the caller: a name and the turn count it was registered with. */
  datatype Person = Person(name: string, turns: int)

  /** The message of the exception thrown by `GetNextPerson` on an empty queue. */
  const NoOneInQueue: string := "No one in the queue."

  // ---------------------------------------------------------------------------
  // Value-level specification
  // ---------------------------------------------------------------------------

  /** The state of one queue entry, as a value. */
  datatype Slot = Slot(name: string, originalTurns: int, remaining: int) {

    /** An entry registered with zero or fewer turns is never used up. */
    predicate IsInfinite() {
      originalTurns <= 0
    }

    /** What the queue keeps true of every entry it holds. */
    predicate WellFormed() {
      if IsInfinite() then remaining == 0 else remaining > 0
    }
  }

  predicate AllWellFormed(q: seq<Slot>) {
    forall i :: 0 <= i < |q| ==> q[i].WellFormed()
  }

  /** A fresh entry: `remaining` starts at the turn count for a finite person and at 0 otherwise. */
  function NewSlot(name: string, turns: int): (s: Slot)
    ensures s.name == name && s.originalTurns == turns
    ensures s.IsInfinite() <==> turns <= 0
    ensures !s.IsInfinite() ==> s.remaining == turns
    ensures s.WellFormed()
  {
    Slot(name, turns, if turns > 0 then turns else 0)
  }

  /** What the entry dequeued at the head turns into at the tail: itself, one turn fewer, or nothing. */
  function Requeued(s: Slot): seq<Slot> {
    if s.IsInfinite() then [s]
    else if s.remaining - 1 > 0 then [s.(remaining := s.remaining - 1)]
    else []
  }

  /** The snapshot handed to the caller for an entry: its name and its original turn count. */
  function Handout(s: Slot): Person {
    Person(s.name, s.originalTurns)
  }

  /**
    What `GetNextPerson` returns for queue `q`: the failure when it is empty,
    otherwise the head's name with its original turn count.
  */
  function NextPerson(q: seq<Slot>): (r: Result<Person>)
    ensures r.Failure? <==> q == []
    ensures r.Failure? ==> r.error == InvalidOperation(NoOneInQueue)
    ensures r.Success? ==> r.value.name == q[0].name && r.value.turns == q[0].originalTurns
  {
    if q == [] then Failure(InvalidOperation(NoOneInQueue))
    else Success(Handout(q[0]))
  }

  /**
    The queue after `GetNextPerson`: the head leaves, everyone else moves up one
    place in the same order, and the head comes back at the tail if it is
    infinite or still has turns left after the decrement.
  */
  function NextQueue(q: seq<Slot>): (r: seq<Slot>)
    ensures q == [] ==> r == []
    ensures q != [] ==> |q| - 1 <= |r| <= |q| && r[..|q| - 1] == q[1..]
    ensures q != [] && q[0].IsInfinite() ==> r == q[1..] + [q[0]]
    ensures q != [] && !q[0].IsInfinite() ==>
      (|r| == |q| <==> q[0].remaining > 1) &&
      (|r| == |q| ==> r[|q| - 1] == q[0].(remaining := q[0].remaining - 1))
    ensures AllWellFormed(q) ==> AllWellFormed(r)
  {
    if q == [] then q else q[1..] + Requeued(q[0])
  }

  /** On a well-formed queue the length drops by one exactly when a finite head has its last turn. */
  lemma NextQueueLength(q: seq<Slot>)
    requires AllWellFormed(q) && q != []
    ensures |NextQueue(q)| == if !q[0].IsInfinite() && q[0].remaining == 1 then |q| - 1 else |q|
  {
    assert q[0].WellFormed();
  }

  // ---------------------------------------------------------------------------
  // Runs of successive calls
  // ---------------------------------------------------------------------------

  /** The people handed out by `n` successive calls; calls on an empty queue hand out nobody. */
  function Turns(q: seq<Slot>, n: nat): seq<Person>
    decreases n
  {
    if n == 0 || q == [] then []
    else [Handout(q[0])] + Turns(NextQueue(q), n - 1)
  }

  /** The queue after `n` successive calls. */
  function After(q: seq<Slot>, n: nat): seq<Slot>
    decreases n
  {
    if n == 0 then q else After(NextQueue(q), n - 1)
  }

  /** The turns an entry is still owed: its remaining count if it is finite, none if it is infinite. */
  function Owed(s: Slot): nat {
    if s.IsInfinite() || s.remaining <= 0 then 0 else s.remaining
  }

  /** The turns the queue still owes to entries called `name`. */
  function OwedTo(q: seq<Slot>, name: string): nat {
    if q == [] then 0
    else (if q[0].name == name then Owed(q[0]) else 0) + OwedTo(q[1..], name)
  }

  /** The turns the queue still owes altogether. */
  function TotalOwed(q: seq<Slot>): nat {
    if q == [] then 0 else Owed(q[0]) + TotalOwed(q[1..])
  }

  /** How many of the people handed out are finite and called `name`. */
  function HandedTo(ps: seq<Person>, name: string): nat {
    if ps == [] then 0
    else (if ps[0].turns > 0 && ps[0].name == name then 1 else 0) + HandedTo(ps[1..], name)
  }

  /** The infinite entries of a queue, as a multiset of values. */
  function Infinites(q: seq<Slot>): multiset<Slot> {
    if q == [] then multiset{}
    else (if q[0].IsInfinite() then multiset{q[0]} else multiset{}) + Infinites(q[1..])
  }

  /** Whether every entry of the queue is finite. */
  predicate AllFinite(q: seq<Slot>) {
    forall i :: 0 <= i < |q| ==> !q[i].IsInfinite()
  }

  /** Whether every entry of the queue is infinite. */
  predicate AllInfinite(q: seq<Slot>) {
    forall i :: 0 <= i < |q| ==> q[i].IsInfinite()
  }

  lemma {:induction false} OwedToAppend(a: seq<Slot>, b: seq<Slot>, name: string)
    ensures OwedTo(a + b, name) == OwedTo(a, name) + OwedTo(b, name)
  {
    if a == [] {
      assert a + b == b;
    } else {
      assert (a + b)[1..] == a[1..] + b;
      OwedToAppend(a[1..], b, name);
    }
  }

  lemma {:induction false} TotalOwedAppend(a: seq<Slot>, b: seq<Slot>)
    ensures TotalOwed(a + b) == TotalOwed(a) + TotalOwed(b)
  {
    if a == [] {
      assert a + b == b;
    } else {
      assert (a + b)[1..] == a[1..] + b;
      TotalOwedAppend(a[1..], b);
    }
  }

  lemma {:induction false} InfinitesAppend(a: seq<Slot>, b: seq<Slot>)
    ensures Infinites(a + b) == Infinites(a) + Infinites(b)
  {
    if a == [] {
      assert a + b == b;
    } else {
      assert (a + b)[1..] == a[1..] + b;
      InfinitesAppend(a[1..], b);
    }
  }

  lemma {:induction false} OwedToAbsent(q: seq<Slot>, name: string)
    requires forall i :: 0 <= i < |q| ==> q[i].name != name
    ensures OwedTo(q, name) == 0
  {
    if q != [] {
      assert q[0].name != name;
      OwedToAbsent(q[1..], name);
    }
  }

  /** A well-formed queue owes no turns exactly when all its entries are infinite. */
  lemma {:induction false} NothingOwed(q: seq<Slot>)
    requires AllWellFormed(q)
    ensures TotalOwed(q) == 0 <==> AllInfinite(q)
  {
    if q != [] {
      assert q[0].WellFormed();
      assert AllWellFormed(q[1..]) by {
        forall i | 0 <= i < |q[1..]| ensures q[1..][i].WellFormed() { assert q[1..][i] == q[i + 1]; }
      }
      NothingOwed(q[1..]);
      if !q[0].IsInfinite() {
      } else if !AllInfinite(q[1..]) {
        var i :| 0 <= i < |q[1..]| && !q[1..][i].IsInfinite();
        assert !q[i + 1].IsInfinite();
      } else {
        assert AllInfinite(q) by {
          forall i | 0 <= i < |q| ensures q[i].IsInfinite() { if i > 0 { assert q[i] == q[1..][i - 1]; } }
        }
      }
    }
  }

  /**
    One call uses up one owed turn when the head is finite, and none when it is
    infinite: the turn just handed out plus the turns the new queue owes are the
    turns the old queue owed, per name and altogether.
  */
  lemma BudgetStep(q: seq<Slot>, name: string)
    requires AllWellFormed(q) && q != []
    ensures HandedTo([Handout(q[0])], name) + OwedTo(NextQueue(q), name) == OwedTo(q, name)
    ensures (if q[0].IsInfinite() then 0 else 1) + TotalOwed(NextQueue(q)) == TotalOwed(q)
  {
    var h := q[0];
    assert h.WellFormed();
    assert [Handout(h)][1..] == [];
    if !h.IsInfinite() && h.remaining > 1 {
      var h' := h.(remaining := h.remaining - 1);
      assert OwedTo([h'], name) == (if h.name == name then h.remaining - 1 else 0) by {
        assert [h'][1..] == [];
      }
      assert TotalOwed([h']) == h.remaining - 1 by {
        assert [h'][1..] == [];
      }
    }
    OwedToAppend(q[1..], Requeued(h), name);
    TotalOwedAppend(q[1..], Requeued(h));
  }

  /** The first of `n > 0` calls on a non-empty queue, then the other `n - 1`. */
  lemma TurnsCons(q: seq<Slot>, n: nat, name: string)
    requires q != [] && n > 0
    ensures HandedTo(Turns(q, n), name) == HandedTo([Handout(q[0])], name) + HandedTo(Turns(NextQueue(q), n - 1), name)
    ensures |Turns(q, n)| == 1 + |Turns(NextQueue(q), n - 1)|
  {
    var rest := Turns(NextQueue(q), n - 1);
    assert ([Handout(q[0])] + rest)[1..] == rest;
    assert [Handout(q[0])][1..] == [];
  }

  /**
    Turn accounting over any number of calls: the turns handed out to finite
    people called `name`, plus the turns still owed to them, are the turns owed
    at the start. So nobody finite is handed out more often than they are owed.
  */
  lemma {:induction false} BudgetConserved(q: seq<Slot>, n: nat, name: string)
    requires AllWellFormed(q)
    ensures HandedTo(Turns(q, n), name) + OwedTo(After(q, n), name) == OwedTo(q, name)
    decreases n
  {
    if n == 0 {
    } else if q == [] {
      assert After(q, n) == After(q, n - 1);
      BudgetConserved(q, n - 1, name);
    } else {
      var q' := NextQueue(q);
      BudgetStep(q, name);
      BudgetConserved(q', n - 1, name);
      TurnsCons(q, n, name);
      assert After(q, n) == After(q', n - 1);
    }
  }

  /** A call on a queue of finite people leaves a queue of finite people. */
  lemma NextQueueFinite(q: seq<Slot>)
    requires AllFinite(q) && q != []
    ensures AllFinite(NextQueue(q))
  {
    var q' := NextQueue(q);
    forall i | 0 <= i < |q'| ensures !q'[i].IsInfinite() {
      if i < |q| - 1 {
        assert q'[i] == q[i + 1];
      }
    }
  }

  /**
    A queue of finite people runs dry: after as many calls as it owes turns,
    every call handed somebody out and the queue is empty.
  */
  lemma {:induction false} FiniteQueueEmpties(q: seq<Slot>)
    requires AllWellFormed(q) && AllFinite(q)
    ensures After(q, TotalOwed(q)) == []
    ensures |Turns(q, TotalOwed(q))| == TotalOwed(q)
    decreases TotalOwed(q)
  {
    if q != [] {
      var n := TotalOwed(q);
      var q' := NextQueue(q);
      FiniteStep(q);
      FiniteQueueEmpties(q');
      TurnsCons(q, n, "");
      assert After(q, n) == After(q', n - 1);
    }
  }

  /** One call on a non-empty queue of finite people uses up exactly one owed turn. */
  lemma FiniteStep(q: seq<Slot>)
    requires AllWellFormed(q) && AllFinite(q) && q != []
    ensures TotalOwed(q) > 0 && TotalOwed(NextQueue(q)) == TotalOwed(q) - 1
    ensures AllWellFormed(NextQueue(q)) && AllFinite(NextQueue(q))
  {
    NothingOwed(q);
    assert !q[0].IsInfinite();
    BudgetStep(q, "");
    NextQueueFinite(q);
  }

  /** ... and each name was handed out exactly as often as it was owed. */
  lemma FiniteQueueDrains(q: seq<Slot>)
    requires AllWellFormed(q) && AllFinite(q)
    ensures After(q, TotalOwed(q)) == []
    ensures |Turns(q, TotalOwed(q))| == TotalOwed(q)
    ensures forall name :: HandedTo(Turns(q, TotalOwed(q)), name) == OwedTo(q, name)
  {
    FiniteQueueEmpties(q);
    forall name
      ensures HandedTo(Turns(q, TotalOwed(q)), name) == OwedTo(q, name)
    {
      BudgetConserved(q, TotalOwed(q), name);
    }
  }

  /**
    A finite person added with `k` turns behind a queue of finite people, under
    a name nobody else in it has, is handed out exactly `k` times before the
    queue runs dry.
  */
  lemma FinitePersonServedExactly(q: seq<Slot>, name: string, k: int)
    requires AllWellFormed(q) && AllFinite(q) && k > 0
    requires forall i :: 0 <= i < |q| ==> q[i].name != name
    ensures var q' := q + [NewSlot(name, k)];
      After(q', TotalOwed(q')) == [] && HandedTo(Turns(q', TotalOwed(q')), name) == k
  {
    var q' := q + [NewSlot(name, k)];
    assert AllWellFormed(q') by {
      forall i | 0 <= i < |q'| ensures q'[i].WellFormed() { if i < |q| { assert q'[i] == q[i]; } }
    }
    assert AllFinite(q') by {
      forall i | 0 <= i < |q'| ensures !q'[i].IsInfinite() { if i < |q| { assert q'[i] == q[i]; } }
    }
    FiniteQueueDrains(q');
    OwedToAppend(q, [NewSlot(name, k)], name);
    OwedToAbsent(q, name);
    assert OwedTo([NewSlot(name, k)], name) == k by {
      assert [NewSlot(name, k)][1..] == [];
    }
  }

  /** One call keeps the same infinite entries: an infinite head goes back unchanged, a finite one is not infinite. */
  lemma InfinitesStep(q: seq<Slot>)
    requires q != []
    ensures Infinites(NextQueue(q)) == Infinites(q)
  {
    var h := q[0];
    InfinitesAppend(q[1..], Requeued(h));
    assert Infinites(Requeued(h)) == Infinites([h]) by {
      assert [h][1..] == [];
      if !h.IsInfinite() && h.remaining - 1 > 0 {
        assert [h.(remaining := h.remaining - 1)][1..] == [];
      }
    }
    assert Infinites(q) == Infinites([h]) + Infinites(q[1..]) by {
      assert [h][1..] == [];
    }
  }

  /**
    An infinite entry is never removed: after any number of calls the queue
    holds the same infinite entries, so a queue holding one never becomes empty.
  */
  lemma {:induction false} InfinitesKept(q: seq<Slot>, n: nat)
    ensures Infinites(After(q, n)) == Infinites(q)
    decreases n
  {
    if n > 0 {
      if q != [] {
        InfinitesStep(q);
      }
      InfinitesKept(NextQueue(q), n - 1);
    }
  }

  /** With an infinite entry in the queue, every one of `n` calls succeeds. */
  lemma {:induction false} InfiniteNeverRunsDry(q: seq<Slot>, n: nat)
    requires Infinites(q) != multiset{}
    ensures |Turns(q, n)| == n
    decreases n
  {
    if n > 0 {
      assert q != [];
      InfinitesStep(q);
      InfiniteNeverRunsDry(NextQueue(q), n - 1);
    }
  }

  // ---------------------------------------------------------------------------
  // Object-level model
  // ---------------------------------------------------------------------------

  /** A queue entry: a name and original turn count fixed at creation, and a mutable counter. */
  class Entry {
    const name: string
    const originalTurns: int
    var remaining: int

    /** The entry's current state as a value. */
    function Snapshot(): (s: Slot)
      reads this
      ensures s.name == name && s.originalTurns == originalTurns && s.remaining == remaining
    {
      Slot(name, originalTurns, remaining)
    }

    /** Whether the entry was registered with zero or fewer turns. */
    predicate IsInfinite()
      reads this
      ensures IsInfinite() == Snapshot().IsInfinite()
    {
      originalTurns <= 0
    }

    constructor (name: string, originalTurns: int)
      ensures Snapshot() == NewSlot(name, originalTurns)
    {
      this.name := name;
      this.originalTurns := originalTurns;
      remaining := if originalTurns > 0 then originalTurns else 0;
    }
  }

  class TakingTurnsQueue {
    /** The entries, head first. */
    var queue: seq<Entry>
    /** The abstract state: a snapshot of each entry, head first. */
    ghost var Contents: seq<Slot>
    /** Every entry this queue has allocated. */
    ghost var Repr: set<object>

    ghost predicate Valid()
      reads this, queue
    {
      && |Contents| == |queue|
      && (forall i :: 0 <= i < |queue| ==> queue[i].Snapshot() == Contents[i])
      && (forall i, j :: 0 <= i < j < |queue| ==> queue[i] != queue[j])
      && (forall i :: 0 <= i < |queue| ==> queue[i] in Repr)
      && AllWellFormed(Contents)
    }

    constructor ()
      ensures Valid() && Contents == [] && fresh(Repr)
    {
      queue := [];
      Contents := [];
      Repr := {};
    }

    /** The number of entries currently in the queue. */
    function Length(): (n: int)
      reads this, queue
      requires Valid()
      ensures n == |Contents|
    {
      |queue|
    }

    /** Appends a new entry for `name` at the tail. */
    method AddPerson(name: string, turns: int)
      requires Valid()
      modifies this
      ensures Valid() && fresh(Repr - old(Repr))
      ensures Contents == old(Contents) + [NewSlot(name, turns)]
    {
      var entry := new Entry(name, turns);
      queue := queue + [entry];
      Repr := Repr + {entry};
      Contents := Contents + [entry.Snapshot()];
    }

    /**
      Dequeues the head and returns it with its original turn count; puts it
      back at the tail per `NextQueue`. Only the head entry is changed.
    */
    method GetNextPerson() returns (r: Result<Person>)
      requires Valid()
      modifies this, if queue == [] then {} else {queue[0]}
      ensures Valid() && Repr == old(Repr)
      ensures r == NextPerson(old(Contents))
      ensures Contents == NextQueue(old(Contents))
    {
      if |queue| == 0 {
        return Failure(InvalidOperation(NoOneInQueue));
      }
      var e := queue[0];
      queue := queue[1..];
      Contents := Contents[1..];
      r := Success(Person(e.name, e.originalTurns));
      if e.IsInfinite() {
        queue := queue + [e];
        Contents := Contents + [e.Snapshot()];
      } else {
        e.remaining := e.remaining - 1;
        if e.remaining > 0 {
          queue := queue + [e];
          Contents := Contents + [e.Snapshot()];
        }
      }
    }
  }

  /** Two people with 2 and 1 turns are handed out A, B, A; then the queue is empty. */
  method FinitePeopleScenario() {
    var q := new TakingTurnsQueue();
    q.AddPerson("A", 2);
    q.AddPerson("B", 1);
    var p := q.GetNextPerson();
    assert p == Success(Person("A", 2));
    p := q.GetNextPerson();
    assert p == Success(Person("B", 1));
    assert q.Length() == 1;
    p := q.GetNextPerson();
    assert p == Success(Person("A", 2));
    assert q.Length() == 0;
    p := q.GetNextPerson();
    assert p == Failure(InvalidOperation("No one in the queue."));
  }

  /** With A and C having one turn each around an infinite B: A, B, C, and then only B is left. */
  method MixedPeopleScenario() {
    var q := new TakingTurnsQueue();
    q.AddPerson("A", 1);
    q.AddPerson("B", 0);
    q.AddPerson("C", 1);
    var p := q.GetNextPerson();
    assert p == Success(Person("A", 1));
    p := q.GetNextPerson();
    assert p == Success(Person("B", 0));
    p := q.GetNextPerson();
    assert p == Success(Person("C", 1));
    assert q.Contents == [Slot("B", 0, 0)];
  }
}
