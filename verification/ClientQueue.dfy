/** The ring buffer of accepted clients in tcp/ssl/server.c, without its lock. */
module ClientQueue {
  const MAX_QUEUE_SIZE := 128

  /** The three fields of the C structure; one slot always stays unused. */
  datatype Ring = Ring(clients: seq<int>, front: nat, rear: nat)

  predicate ValidRing(q: Ring) {
    |q.clients| >= 2 && q.front < |q.clients| && q.rear < |q.clients|
  }

  lemma Remainder(x: nat, n: nat)
    requires 0 < x <= n
    ensures x % n == if x == n then 0 else x
  {
    if x == n { assert x == 1 * n + 0; } else { assert x == 0 * n + x; }
  }

  function Succ(i: nat, capacity: nat): (r: nat)
    requires i < capacity
    ensures r == if i + 1 == capacity then 0 else i + 1
  {
    Remainder(i + 1, capacity);
    (i + 1) % capacity
  }

  function Size(q: Ring): (n: nat)
    requires ValidRing(q)
    ensures n < |q.clients|
  {
    if q.rear >= q.front then q.rear - q.front else q.rear + |q.clients| - q.front
  }

  function Slot(q: Ring, k: nat): (i: nat)
    requires ValidRing(q) && k < |q.clients|
    ensures i < |q.clients|
  {
    if q.front + k < |q.clients| then q.front + k else q.front + k - |q.clients|
  }

  /** The waiting clients, the oldest first. */
  function Contents(q: Ring): (s: seq<int>)
    requires ValidRing(q)
    ensures |s| == Size(q)
  {
    seq(Size(q), k requires 0 <= k < Size(q) => q.clients[Slot(q, k)])
  }

  predicate IsFull(q: Ring)
    requires ValidRing(q)
  {
    Succ(q.rear, |q.clients|) == q.front
  }

  predicate IsEmpty(q: Ring)
    requires ValidRing(q)
  {
    q.front == q.rear
  }

  function Push(q: Ring, client: int): Ring
    requires ValidRing(q)
  {
    q.(clients := q.clients[q.rear := client], rear := Succ(q.rear, |q.clients|))
  }

  function Pop(q: Ring): Ring
    requires ValidRing(q)
  {
    q.(front := Succ(q.front, |q.clients|))
  }

  /** The two tests tell when the buffer holds nothing, and when it holds one less than its slots. */
  lemma TestsMeanSize(q: Ring)
    requires ValidRing(q)
    ensures IsEmpty(q) <==> Contents(q) == []
    ensures IsFull(q) <==> |Contents(q)| == |q.clients| - 1
  {
  }

  /** A push to a buffer with room appends. */
  lemma PushAppends(q: Ring, client: int)
    requires ValidRing(q) && !IsFull(q)
    ensures ValidRing(Push(q, client)) && Contents(Push(q, client)) == Contents(q) + [client]
  {
    var n := Push(q, client);
    assert Size(n) == Size(q) + 1;
    assert Slot(n, Size(q)) == q.rear;
    forall k | 0 <= k < Size(q) ensures Contents(n)[k] == Contents(q)[k] {
      assert Slot(n, k) == Slot(q, k) != q.rear;
    }
  }

  /** A pop from a buffer with clients takes the oldest. */
  lemma PopTakesOldest(q: Ring)
    requires ValidRing(q) && !IsEmpty(q)
    ensures ValidRing(Pop(q)) && Contents(q) == [q.clients[q.front]] + Contents(Pop(q))
  {
    var n := Pop(q);
    assert Size(n) == Size(q) - 1;
    assert Slot(q, 0) == q.front;
    forall k | 0 <= k < Size(n) ensures Contents(n)[k] == Contents(q)[k + 1] {
      assert Slot(n, k) == Slot(q, k + 1);
    }
  }

  class Queue {
    var clients: array<int>
    var front: nat
    var rear: nat

    ghost function AsRing(): Ring
      reads this, clients
    {
      Ring(clients[..], front, rear)
    }

    ghost predicate Valid()
      reads this, clients
    {
      clients.Length == MAX_QUEUE_SIZE && ValidRing(AsRing())
    }

    /** `queue_init`. */
    constructor ()
      ensures Valid() && fresh(clients) && Contents(AsRing()) == []
    {
      clients := new int[MAX_QUEUE_SIZE];
      front := 0;
      rear := 0;
    }

    method Full() returns (full: bool)
      requires Valid()
      ensures full == (|Contents(AsRing())| == MAX_QUEUE_SIZE - 1)
    {
      TestsMeanSize(AsRing());
      full := (rear + 1) % MAX_QUEUE_SIZE == front;
    }

    method Empty() returns (empty: bool)
      requires Valid()
      ensures empty == (Contents(AsRing()) == [])
    {
      TestsMeanSize(AsRing());
      empty := front == rear;
    }

    /** The part of `queue_push` behind the wait. */
    method Put(client: int)
      requires Valid() && |Contents(AsRing())| < MAX_QUEUE_SIZE - 1
      modifies this`rear, clients
      ensures Valid() && clients == old(clients)
      ensures AsRing() == Push(old(AsRing()), client)
      ensures Contents(AsRing()) == old(Contents(AsRing())) + [client]
    {
      TestsMeanSize(AsRing());
      PushAppends(AsRing(), client);
      clients[rear] := client;
      rear := (rear + 1) % MAX_QUEUE_SIZE;
    }

    /** The part of `queue_pop` behind the wait. */
    method Take() returns (client: int)
      requires Valid() && Contents(AsRing()) != []
      modifies this`front
      ensures Valid()
      ensures AsRing() == Pop(old(AsRing()))
      ensures old(Contents(AsRing())) == [client] + Contents(AsRing())
    {
      TestsMeanSize(AsRing());
      PopTakesOldest(AsRing());
      client := clients[front];
      front := (front + 1) % MAX_QUEUE_SIZE;
    }
  }
}
