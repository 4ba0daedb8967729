/** Abstract models of the two FreeRTOS semaphores the monitor uses to signal
    between tasks: a counting semaphore for sensor alerts and a binary
    semaphore for mode-toggle requests.  Only their observable behaviour is
    modelled: how many units are pending, saturation at the capacity, and
    what a take hands back. */
module Signals {

  /** Capacity of the alert counting semaphore (MAX_EVENTS). */
  const MAX_EVENTS: nat := 10

  function Min(a: int, b: int): int {
    if a <= b then a else b
  }

  /** Outcome of a take: whether a unit was obtained, and the semaphore afterwards. */
  datatype Taken<S> = Taken(ok: bool, rest: S)

  /** A counting semaphore with `count` pending units out of at most `max`. */
  datatype Counting = Counting(count: nat, max: nat) {
    predicate Valid() {
      count <= max
    }
  }

  /** Creating a counting semaphore with a capacity and an initial count. */
  function CreateCounting(max: nat, initial: nat): (s: Counting)
    requires initial <= max
    ensures s.Valid()
    ensures s.max == max && s.count == initial
  {
    Counting(initial, max)
  }

  /** Giving a counting semaphore: one more pending unit, saturating at the
      capacity, where the give fails and the semaphore is left as it was. */
  function Give(s: Counting): (r: Counting)
    requires s.Valid()
    ensures r.Valid() && r.max == s.max
    ensures r.count == Min(s.count + 1, s.max)
    ensures s.count == s.max ==> r == s
  {
    if s.count < s.max then s.(count := s.count + 1) else s
  }

  /** Taking a counting semaphore without waiting: succeeds exactly when a
      unit is pending, and then consumes exactly one. */
  function Take(s: Counting): (r: Taken<Counting>)
    requires s.Valid()
    ensures r.rest.Valid() && r.rest.max == s.max
    ensures r.ok <==> s.count > 0
    ensures r.rest.count + (if r.ok then 1 else 0) == s.count
  {
    if s.count > 0 then Taken(true, s.(count := s.count - 1)) else Taken(false, s)
  }

  /** Below capacity, a take undoes a give. */
  lemma TakeUndoesGive(s: Counting)
    requires s.Valid() && s.count < s.max
    ensures Take(Give(s)) == Taken(true, s)
  {
  }

  /** `n` successive gives. */
  function GiveMany(s: Counting, n: nat): (r: Counting)
    requires s.Valid()
    ensures r.Valid() && r.max == s.max
    decreases n
  {
    if n == 0 then s else GiveMany(Give(s), n - 1)
  }

  /** However many gives arrive, the count is their number capped at the
      capacity: gives beyond the capacity are lost. */
  lemma {:induction false} GiveManySaturates(s: Counting, n: nat)
    requires s.Valid()
    ensures GiveMany(s, n).count == Min(s.count + n, s.max)
    decreases n
  {
    if n > 0 {
      GiveManySaturates(Give(s), n - 1);
    }
  }

  /** A binary semaphore: at most one pending unit. */
  datatype Binary = Binary(pending: bool)

  /** A binary semaphore is created empty. */
  function CreateBinary(): (s: Binary)
    ensures !s.pending
  {
    Binary(false)
  }

  /** Giving a binary semaphore leaves exactly one unit pending, whether or
      not one was pending before. */
  function GiveBinary(s: Binary): (r: Binary)
    ensures r.pending
  {
    Binary(true)
  }

  /** Taking a binary semaphore without waiting: succeeds exactly when the
      unit is pending, and always leaves it empty. */
  function TakeBinary(s: Binary): (r: Taken<Binary>)
    ensures r.ok <==> s.pending
    ensures !r.rest.pending
  {
    Taken(s.pending, Binary(false))
  }

  /** `n` successive gives of a binary semaphore. */
  function GiveBinaryMany(s: Binary, n: nat): Binary
    decreases n
  {
    if n == 0 then s else GiveBinaryMany(GiveBinary(s), n - 1)
  }

  /** Repeated gives coalesce: after one or more gives exactly one take
      succeeds and the next one fails. */
  lemma {:induction false} GivesCoalesce(s: Binary, n: nat)
    requires n > 0
    ensures GiveBinaryMany(s, n) == GiveBinary(s)
    ensures TakeBinary(GiveBinaryMany(s, n)).ok
    ensures !TakeBinary(TakeBinary(GiveBinaryMany(s, n)).rest).ok
    decreases n
  {
    if n > 1 {
      GivesCoalesce(GiveBinary(s), n - 1);
    }
  }
}
