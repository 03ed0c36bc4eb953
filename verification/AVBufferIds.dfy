/** Unique ids of buffers: a counter shared by all buffers of a process, behind the process and its start time. */
module AVBufferIds {

  const UINT32_MAX: nat := 0xFFFF_FFFF
  const TWO_16: nat := 0x1_0000
  const TWO_32: nat := 0x1_0000_0000

  /** The counter starts again below 1 when it is used up. */
  function NextCount(count: nat): nat {
    (if count == UINT32_MAX then 0 else count) + 1
  }

  /** Two bytes of the start time, two of the process id, and four of the counter, from the low end. */
  function ComposeId(startTime: nat, processId: nat, count: nat): nat {
    startTime % TWO_16 + processId * TWO_16 + count * TWO_32
  }

  /** The counter after `k` ids. */
  function CountAfter(k: nat): nat {
    if k == 0 then 0 else NextCount(CountAfter(k - 1))
  }

  lemma {:induction false} CountAfterValue(k: nat)
    requires k > 0
    ensures CountAfter(k) == (k - 1) % UINT32_MAX + 1
  {
    if k > 1 {
      CountAfterValue(k - 1);
      assert k - 1 == (k - 2) + 1;
      if (k - 2) % UINT32_MAX == UINT32_MAX - 1 {
        assert k - 1 == ((k - 2) / UINT32_MAX + 1) * UINT32_MAX;
      } else {
        assert k - 1 == (k - 2) / UINT32_MAX * UINT32_MAX + ((k - 2) % UINT32_MAX + 1);
      }
    }
  }

  /** Two ids of one process are equal exactly when a multiple of 2^32 - 1 ids lies between them, and none is 0. */
  lemma IdsRepeatIff(startTime: nat, processId: nat, i: nat, j: nat)
    requires processId < TWO_16 && 0 < i <= j
    ensures ComposeId(startTime, processId, CountAfter(i)) == ComposeId(startTime, processId, CountAfter(j)) <==>
            (j - i) % UINT32_MAX == 0
    ensures ComposeId(startTime, processId, CountAfter(i)) != 0
  {
    CountAfterValue(i);
    CountAfterValue(j);
    assert ComposeId(startTime, processId, CountAfter(i)) == ComposeId(startTime, processId, CountAfter(j)) <==>
           (i - 1) % UINT32_MAX == (j - 1) % UINT32_MAX;
    SameRemainder(i - 1, j - 1, UINT32_MAX);
  }

  /** Ids of two processes with the same start time differ, whatever their counters. */
  lemma ProcessesDiffer(startTime: nat, p1: nat, p2: nat, c1: nat, c2: nat)
    requires p1 < TWO_16 && p2 < TWO_16 && p1 != p2
    ensures ComposeId(startTime, p1, c1) != ComposeId(startTime, p2, c2)
    ensures ComposeId(startTime, p1, c1) % TWO_16 == startTime % TWO_16
  {
    assert ComposeId(startTime, p1, c1) == startTime % TWO_16 + (p1 + c1 * TWO_16) * TWO_16;
  }

  lemma SameRemainder(a: nat, b: nat, m: nat)
    requires a <= b && m > 0
    ensures a % m == b % m <==> (b - a) % m == 0
  {
    var qa, ra, qb, rb := a / m, a % m, b / m, b % m;
    assert a == qa * m + ra && b == qb * m + rb;
    assert b - a == (qb - qa) * m + (rb - ra);
    if ra == rb {
      MultipleHasNoRemainder(qb - qa, m);
    } else if (b - a) % m == 0 {
      var q := (b - a) / m;
      assert rb - ra == (q - (qb - qa)) * m;
      SmallMultiple(q - (qb - qa), m);
    }
  }

  lemma MultipleHasNoRemainder(q: int, m: nat)
    requires m > 0
    ensures (q * m) % m == 0
  {
    assert q * m == (q * m) / m * m + (q * m) % m;
    var d := q - (q * m) / m;
    assert d * m == (q * m) % m;
    SmallMultiple(d, m);
  }

  lemma SmallMultiple(d: int, m: nat)
    requires m > 0 && -(m as int) < d * m < m
    ensures d == 0
  {
  }

  /** The counter of a process. */
  class IdSource {
    const startTime: nat
    const processId: nat
    var bufferId: nat

    constructor (startTime: nat, processId: nat)
      ensures this.startTime == startTime && this.processId == processId && bufferId == 0
    {
      this.startTime, this.processId := startTime, processId;
      bufferId := 0;
    }

    /** The id that is given out next. */
    function NextId(): nat
      reads this
    {
      ComposeId(startTime, processId, NextCount(bufferId))
    }

    method Take() returns (id: nat)
      modifies this
      ensures bufferId == NextCount(old(bufferId)) && id == old(NextId())
    {
      if bufferId == UINT32_MAX {
        bufferId := 0;
      }
      bufferId := bufferId + 1;
      id := ComposeId(startTime, processId, bufferId);
    }
  }
}
