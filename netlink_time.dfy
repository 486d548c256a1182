/** Timeouts of the netlink bus (sd-netlink.c): the deadline calc_elapse computes, the order
    timeout_compare puts pending reply callbacks in, and the priority queue of timed reply
    callbacks, kept here as a sequence sorted by that order. */
module NetlinkTime {
  import opened Common

  /** usec_t and the other uint64_t quantities. */
  type U64 = x: int | 0 <= x < UINT64_LIMIT

  /** uint32_t quantities: the serial counter and nlmsg_seq. */
  type U32 = x: int | 0 <= x < UINT32_LIMIT

  const USEC_PER_SEC: nat := 1000000

  /** RTNL_DEFAULT_TIMEOUT: 25 seconds. */
  const RTNL_DEFAULT_TIMEOUT: nat := 25 * USEC_PER_SEC

  /** A pending reply callback: the handler and its userdata (opaque tokens), the absolute
      deadline (0 for none) and the serial of the request it waits for. */
  datatype ReplyCallback = ReplyCallback(callback: nat, userdata: nat, timeout: U64, serial: U32)

  // ---------------------------------------------------------------------------------------
  // calc_elapse

  /** The relative timeout calc_elapse adds to the current time: 0 stands for the default. */
  function Effective(usec: U64): nat {
    if usec == 0 then RTNL_DEFAULT_TIMEOUT else usec
  }

  /** calc_elapse: (uint64_t) -1 means no deadline (0); otherwise now plus the timeout, with
      the default for 0, in uint64_t arithmetic. */
  function CalcElapse(usec: U64, now: U64): U64 {
    if usec == UINT64_MAX then 0 else (now + Effective(usec)) % UINT64_LIMIT
  }

  /** The deadline lies exactly the (effective) timeout after now, modulo 2^64; an infinite
      timeout gives no deadline. */
  lemma CalcElapseDeadline(usec: U64, now: U64)
    ensures usec == UINT64_MAX ==> CalcElapse(usec, now) == 0
    ensures usec != UINT64_MAX ==>
              (CalcElapse(usec, now) - now) % UINT64_LIMIT == Effective(usec) % UINT64_LIMIT
    ensures usec == 0 ==> CalcElapse(usec, now) == (now + RTNL_DEFAULT_TIMEOUT) % UINT64_LIMIT
  {
    if usec != UINT64_MAX {
      var s := now + Effective(usec);
      var r := s % UINT64_LIMIT;
      assert s == (s / UINT64_LIMIT) * UINT64_LIMIT + r;
      ModShift(r - now, Effective(usec), s / UINT64_LIMIT);
    }
  }

  lemma ModShift(a: int, b: int, q: int)
    requires a == b - q * UINT64_LIMIT
    ensures a % UINT64_LIMIT == b % UINT64_LIMIT
  {
    var m := UINT64_LIMIT;
    assert b == a + q * m;
    assert (a + q * m) % m == a % m by {
      assert a == (a / m) * m + a % m;
      assert a + q * m == (a / m + q) * m + a % m;
    }
  }

  /** Without wrap-around the deadline is strictly later than now, so it is a real deadline
      (not 0). */
  lemma CalcElapseNoWrap(usec: U64, now: U64)
    requires usec != UINT64_MAX && now + Effective(usec) < UINT64_LIMIT
    ensures CalcElapse(usec, now) == now + Effective(usec)
    ensures CalcElapse(usec, now) > now && CalcElapse(usec, now) != 0
  {
  }

  // ---------------------------------------------------------------------------------------
  // timeout_compare

  /** timeout_compare on the deadlines of two reply callbacks. */
  function TimeoutCompare(x: U64, y: U64): int {
    if x != 0 && y == 0 then -1
    else if x == 0 && y != 0 then 1
    else if x < y then -1
    else if x > y then 1
    else 0
  }

  /** The position of a deadline in the order: no deadline (0) after every real one. */
  function Rank(t: U64): nat {
    if t == 0 then UINT64_LIMIT else t
  }

  function Sign(d: int): int {
    if d < 0 then -1 else if d > 0 then 1 else 0
  }

  /** timeout_compare compares ranks: real deadlines ascending, then the callbacks without
      one. */
  lemma TimeoutCompareByRank(x: U64, y: U64)
    ensures TimeoutCompare(x, y) == Sign(Rank(x) - Rank(y))
  {
  }

  /** timeout_compare is a total preorder whose ties are exactly the equal deadlines. */
  lemma TimeoutCompareTotalPreorder(x: U64, y: U64, z: U64)
    ensures TimeoutCompare(x, y) == -TimeoutCompare(y, x)
    ensures TimeoutCompare(x, y) == 0 <==> x == y
    ensures TimeoutCompare(x, y) <= 0 && TimeoutCompare(y, z) <= 0 ==> TimeoutCompare(x, z) <= 0
    ensures x != 0 && y == 0 ==> TimeoutCompare(x, y) < 0
  {
    TimeoutCompareByRank(x, y);
    TimeoutCompareByRank(y, x);
    TimeoutCompareByRank(y, z);
    TimeoutCompareByRank(x, z);
  }

  // ---------------------------------------------------------------------------------------
  // The priority queue of timed reply callbacks

  predicate Sorted(q: seq<ReplyCallback>) {
    forall i, j | 0 <= i < j < |q| :: TimeoutCompare(q[i].timeout, q[j].timeout) <= 0
  }

  /** prioq_put: c goes before the first entry that sorts strictly after it. */
  function Insert(q: seq<ReplyCallback>, c: ReplyCallback): (r: seq<ReplyCallback>)
  {
    if q == [] then [c]
    else if TimeoutCompare(c.timeout, q[0].timeout) < 0 then [c] + q
    else [q[0]] + Insert(q[1..], c)
  }

  /** Inserting adds exactly c. */
  lemma {:induction false} InsertMultiset(q: seq<ReplyCallback>, c: ReplyCallback)
    ensures multiset(Insert(q, c)) == multiset(q) + multiset{c}
    decreases |q|
  {
    if q != [] && TimeoutCompare(c.timeout, q[0].timeout) >= 0 {
      InsertMultiset(q[1..], c);
      assert q == [q[0]] + q[1..];
    }
  }

  /** No entry of q sorts before the deadline b. */
  predicate LowerBound(b: U64, q: seq<ReplyCallback>) {
    forall i | 0 <= i < |q| :: TimeoutCompare(b, q[i].timeout) <= 0
  }

  lemma SortedCons(x: ReplyCallback, q: seq<ReplyCallback>)
    requires LowerBound(x.timeout, q) && Sorted(q)
    ensures Sorted([x] + q)
  {
    var r := [x] + q;
    forall i, j | 0 <= i < j < |r|
      ensures TimeoutCompare(r[i].timeout, r[j].timeout) <= 0
    {
      if i == 0 {
        assert r[j] == q[j - 1];
      } else {
        assert r[i] == q[i - 1] && r[j] == q[j - 1];
      }
    }
  }

  lemma InsertLowerBound(q: seq<ReplyCallback>, c: ReplyCallback, b: U64)
    requires LowerBound(b, q) && TimeoutCompare(b, c.timeout) <= 0
    ensures LowerBound(b, Insert(q, c))
  {
    InsertMultiset(q, c);
    var r := Insert(q, c);
    forall i | 0 <= i < |r|
      ensures TimeoutCompare(b, r[i].timeout) <= 0
    {
      assert r[i] in multiset(r);
      if r[i] != c {
        assert r[i] in multiset(q);
        var k :| 0 <= k < |q| && q[k] == r[i];
      }
    }
  }

  /** Inserting keeps the queue sorted. */
  lemma {:induction false} InsertSorted(q: seq<ReplyCallback>, c: ReplyCallback)
    requires Sorted(q)
    ensures Sorted(Insert(q, c))
    decreases |q|
  {
    if q == [] {
    } else if TimeoutCompare(c.timeout, q[0].timeout) < 0 {
      forall i | 0 <= i < |q|
        ensures TimeoutCompare(c.timeout, q[i].timeout) <= 0
      {
        if i > 0 {
          TimeoutCompareTotalPreorder(c.timeout, q[0].timeout, q[i].timeout);
        }
      }
      SortedCons(c, q);
    } else {
      InsertSorted(q[1..], c);
      TimeoutCompareTotalPreorder(c.timeout, q[0].timeout, c.timeout);
      assert LowerBound(q[0].timeout, q[1..]) by {
        forall i | 0 <= i < |q[1..]|
          ensures TimeoutCompare(q[0].timeout, q[1..][i].timeout) <= 0
        {
          assert q[1..][i] == q[i + 1];
        }
      }
      InsertLowerBound(q[1..], c, q[0].timeout);
      SortedCons(q[0], Insert(q[1..], c));
    }
  }

  /** prioq_remove of the callback for a serial. */
  function RemoveSerial(q: seq<ReplyCallback>, serial: U32): (r: seq<ReplyCallback>)
  {
    if q == [] then []
    else if q[0].serial == serial then RemoveSerial(q[1..], serial)
    else [q[0]] + RemoveSerial(q[1..], serial)
  }

  /** Removing drops exactly the entries for that serial. */
  lemma {:induction false} RemoveSerialMembers(q: seq<ReplyCallback>, serial: U32)
    ensures forall c :: c in RemoveSerial(q, serial) <==> c in q && c.serial != serial
    decreases |q|
  {
    if q != [] {
      RemoveSerialMembers(q[1..], serial);
    }
  }

  /** Removing keeps the queue sorted. */
  lemma {:induction false} RemoveSerialSorted(q: seq<ReplyCallback>, serial: U32)
    requires Sorted(q)
    ensures Sorted(RemoveSerial(q, serial))
    decreases |q|
  {
    if q != [] {
      RemoveSerialSorted(q[1..], serial);
      RemoveSerialMembers(q[1..], serial);
      var rest := RemoveSerial(q[1..], serial);
      if q[0].serial != serial {
        forall i, j | 0 <= i < j < |RemoveSerial(q, serial)|
          ensures TimeoutCompare(RemoveSerial(q, serial)[i].timeout, RemoveSerial(q, serial)[j].timeout) <= 0
        {
          if i == 0 {
            assert rest[j - 1] in rest;
            var k :| 0 <= k < |q[1..]| && q[1..][k] == rest[j - 1];
            assert q[k + 1] == rest[j - 1];
          }
        }
      }
    }
  }

  /** The head of a sorted queue has the earliest deadline. */
  lemma SortedHeadFirst(q: seq<ReplyCallback>, c: ReplyCallback)
    requires Sorted(q) && q != [] && c in q
    ensures TimeoutCompare(q[0].timeout, c.timeout) <= 0
  {
    var k :| 0 <= k < |q| && q[k] == c;
    if k == 0 {
      TimeoutCompareTotalPreorder(c.timeout, c.timeout, c.timeout);
    }
  }
}
