/** dev/nvme/nvme.c, lines 45 to 113: the admin queue pair with its phase tag (sections 4.1 and 4.6
    of the NVM Express Base Specification 1.4), driver and controller taking turns. */
module NvmeQueue {
  import opened Machine
  import opened Registers

  // NVME_ADMIN_QUEUE_ENTRIES
  const ENTRIES: nat := 32

  /** A submission entry. `serial` counts the commands and is in no real entry. */
  datatype Sqe = Sqe(cid: nat, serial: nat)

  /** A completion entry: phase tag and command identifier; `serial` is that of its command. */
  datatype Cqe = Cqe(p: bool, cid: nat, serial: nat)

  // Where the driver is inside nvme_command_identify.
  datatype Pc = Idle | Stored | Rung | Consumed

  /** Driver variables, rings, doorbells and the controller's own pointers. The counters
      submitted, fetched, posted and completed exist only to state the properties. */
  datatype State = State(
    pc: Pc, asqTail: nat, acqHead: nat, acqPhase: bool, expCid: nat,
    asq: seq<Sqe>, acq: seq<Cqe>, sqDoorbell: nat, cqDoorbell: nat,
    sqHead: nat, cqTail: nat, ctrlPhase: bool, fetchedCmds: seq<Sqe>,
    submitted: nat, fetched: nat, posted: nat, completed: nat)

  function Init(): State {
    State(Idle, 0, 0, true, 0x1000, seq(ENTRIES, _ => Sqe(0, 0)), seq(ENTRIES, _ => Cqe(false, 0, 0)), 0, 0,
          0, 0, true, [], 0, 0, 0, 0)
  }

  // ----- the driver -----

  // Line 81.
  function StoreCommand(s: State): State
    requires s.asqTail < |s.asq|
  {
    s.(pc := Stored, asq := s.asq[s.asqTail := Sqe(s.expCid, s.submitted)])
  }

  // nvme_ring_asq_doorbell
  function RingSubmission(s: State): State {
    var newTail := (s.asqTail + 1) % ENTRIES;
    s.(pc := Rung, sqDoorbell := newTail, asqTail := newTail, submitted := s.submitted + 1)
  }

  // The wait loop ends: line 92.
  predicate Ready(s: State)
    requires s.acqHead < |s.acq|
  {
    s.acq[s.acqHead].p == s.acqPhase
  }

  // nvme_ring_acq_doorbell
  function RingCompletion(s: State): State {
    var newHead := (s.acqHead + 1) % ENTRIES;
    s.(pc := Consumed, cqDoorbell := newHead, acqHead := newHead, completed := s.completed + 1)
  }

  // Lines 109 to 112.
  function Finish(s: State): State {
    if s.acqHead == 0 then s.(pc := Idle, acqPhase := !s.acqPhase, expCid := (s.expCid + 1) % 0x1_0000)
    else s.(pc := Idle)
  }

  // ----- the controller -----

  function Fetch(s: State): State
    requires s.sqHead < |s.asq|
  {
    s.(sqHead := (s.sqHead + 1) % ENTRIES, fetchedCmds := s.fetchedCmds + [s.asq[s.sqHead]], fetched := s.fetched + 1)
  }

  function Post(s: State): State
    requires s.fetchedCmds != [] && s.cqTail < |s.acq|
  {
    var c := s.fetchedCmds[0];
    var tail := (s.cqTail + 1) % ENTRIES;
    s.(acq := s.acq[s.cqTail := Cqe(s.ctrlPhase, c.cid, c.serial)], cqTail := tail,
       ctrlPhase := if tail == 0 then !s.ctrlPhase else s.ctrlPhase,
       fetchedCmds := s.fetchedCmds[1..], posted := s.posted + 1)
  }

  // The rings keep their size and every pointer stays inside them.
  predicate Shaped(s: State) {
    && |s.asq| == ENTRIES && |s.acq| == ENTRIES
    && s.asqTail < ENTRIES && s.acqHead < ENTRIES && s.sqHead < ENTRIES && s.cqTail < ENTRIES
  }

  /** One step of either side. The controller fetches when the submission doorbell is ahead of it
      and may post any time it holds a fetched command. */
  ghost predicate Next(s: State, s': State)
    requires Shaped(s)
  {
    || (s.pc == Idle && s' == StoreCommand(s))
    || (s.pc == Stored && s' == RingSubmission(s))
    || (s.pc == Rung && Ready(s) && s' == RingCompletion(s))
    || (s.pc == Consumed && s' == Finish(s))
    || (s.sqHead != s.sqDoorbell && s' == Fetch(s))
    || (s.fetchedCmds != [] && s' == Post(s))
  }

  ghost predicate Behaviour(b: seq<State>) {
    && b != [] && b[0] == Init()
    && forall k :: 0 <= k < |b| - 1 ==> Shaped(b[k]) && Next(b[k], b[k + 1])
  }

  // ----- the invariant -----

  // The tag of a ring slot after n entries were posted: that of the last round that reached it.
  predicate Tag(n: nat, slot: nat)
    requires slot < ENTRIES
  {
    ((n + ENTRIES - 1 - slot) / ENTRIES) % 2 == 1
  }

  // Entries of round n / 32 carry tag 1 when the round is even.
  predicate RoundTag(n: nat) { n / ENTRIES % 2 == 0 }

  ghost predicate Inv(s: State) {
    && Shaped(s)
    && s.asqTail == s.submitted % ENTRIES && s.sqDoorbell == s.asqTail && s.sqHead == s.fetched % ENTRIES
    && s.cqTail == s.posted % ENTRIES && s.acqHead == s.completed % ENTRIES && s.cqDoorbell == s.acqHead
    && s.ctrlPhase == RoundTag(s.posted)
    && s.acqPhase == (if s.pc == Consumed && s.acqHead == 0 then !RoundTag(s.completed) else RoundTag(s.completed))
    && s.completed <= s.posted <= s.fetched <= s.submitted
    && s.submitted == (if s.pc == Rung then s.completed + 1 else s.completed)
    && |s.fetchedCmds| == s.fetched - s.posted
    && (forall k :: 0 <= k < ENTRIES ==> s.acq[k].p == Tag(s.posted, k))
    && s.expCid == Cid(if s.pc == Consumed && s.acqHead == 0 then s.completed - 1 else s.completed)
    && (s.pc == Consumed ==> 0 < s.completed)
    && (s.pc == Stored ==> s.asq[s.asqTail] == Sqe(s.expCid, s.submitted))
    && (s.fetched < s.submitted ==> s.asq[s.sqHead] == Sqe(s.expCid, s.fetched))
    && (s.fetchedCmds != [] ==> s.fetchedCmds[0] == Sqe(s.expCid, s.posted))
    && (s.completed < s.posted ==> s.acq[s.acqHead].serial == s.completed && s.acq[s.acqHead].cid == s.expCid)
  }

  // The identifier of the commands of a round.
  function Cid(n: int): nat { (0x1000 + n / ENTRIES) % 0x1_0000 }

  lemma CidStep(n: nat)
    ensures (n + 1) % ENTRIES != 0 ==> Cid(n + 1) == Cid(n)
    ensures (n + 1) % ENTRIES == 0 ==> Cid(n + 1) == (Cid(n) + 1) % 0x1_0000
  {
  }

  // Posting entry n changes the tag of its own slot only, to the tag of its round.
  lemma TagAfterPost(n: nat, slot: nat)
    requires slot < ENTRIES
    ensures Tag(n + 1, slot) == if slot == n % ENTRIES then RoundTag(n) else Tag(n, slot)
  {
  }

  // Where the next entry goes, the tag is still that of the round before.
  lemma TagIsStale(n: nat)
    ensures Tag(n, n % ENTRIES) == !RoundTag(n)
    ensures Tag(n + 1, n % ENTRIES) == RoundTag(n)
  {
  }

  lemma RoundStep(n: nat)
    ensures RoundTag(n + 1) == if (n + 1) % ENTRIES == 0 then !RoundTag(n) else RoundTag(n)
    ensures (n + 1) % ENTRIES == (n % ENTRIES + 1) % ENTRIES
  {
  }

  /** The wait loop ends exactly when the controller has posted an entry not yet consumed. */
  lemma ReadyIffPosted(s: State)
    requires Inv(s) && s.pc != Consumed
    ensures Ready(s) <==> s.completed < s.posted
  {
    TagIsStale(s.completed);
  }

  lemma PostKeepsInv(s: State)
    requires Inv(s) && s.fetchedCmds != []
    ensures Inv(Post(s))
  {
    RoundStep(s.posted);
    forall k: nat | k < ENTRIES ensures Post(s).acq[k].p == Tag(s.posted + 1, k) { TagAfterPost(s.posted, k); }
  }

  lemma FetchKeepsInv(s: State)
    requires Inv(s) && s.sqHead != s.sqDoorbell
    ensures Inv(Fetch(s))
  {
    RoundStep(s.fetched);
  }

  lemma ConsumeKeepsInv(s: State)
    requires Inv(s) && s.pc == Rung && Ready(s)
    ensures Inv(RingCompletion(s))
  {
    ReadyIffPosted(s);
    RoundStep(s.completed);
    CidStep(s.completed);
  }

  lemma NextKeepsInv(s: State, s': State)
    requires Inv(s) && Next(s, s')
    ensures Inv(s')
  {
    if s.fetchedCmds != [] && s' == Post(s) {
      PostKeepsInv(s);
    } else if s.sqHead != s.sqDoorbell && s' == Fetch(s) {
      FetchKeepsInv(s);
    } else if s.pc == Rung && Ready(s) && s' == RingCompletion(s) {
      ConsumeKeepsInv(s);
    } else {
      DriverKeepsInv(s, s');
    }
  }

  // The steps of the driver that look at no completion.
  lemma DriverKeepsInv(s: State, s': State)
    requires Inv(s)
    requires (s.pc == Idle && s' == StoreCommand(s)) || (s.pc == Stored && s' == RingSubmission(s))
             || (s.pc == Consumed && s' == Finish(s))
    ensures Inv(s')
  {
    RoundStep(s.submitted);
    if s.pc == Consumed { CidStep(s.completed - 1); }
  }

  lemma InitInv()
    ensures Inv(Init())
  {
    forall k: nat | k < ENTRIES ensures !Tag(0, k) { }
  }

  lemma {:induction false} Reachable(b: seq<State>, k: nat)
    requires Behaviour(b) && k < |b|
    ensures Inv(b[k])
  {
    if k == 0 {
      InitInv();
    } else {
      Reachable(b, k - 1);
      NextKeepsInv(b[k - 1], b[k]);
    }
  }

  /** In every state of every interleaving: head, tail, doorbells, phase and identifier are what the
      numbers of commands completed and submitted say, the tag under the head matches exactly when an
      unconsumed completion is there, and that completion answers the command the driver waits for and
      carries its identifier. */
  lemma QueueIsSafe(b: seq<State>, k: nat)
    requires Behaviour(b) && k < |b| && b[k].pc != Consumed
    ensures var s := b[k];
            && Shaped(s) && |s.asq| == |s.acq| == 32
            && s.acqHead == s.cqDoorbell == s.completed % 32 && s.asqTail == s.sqDoorbell == s.submitted % 32
            && (s.acqPhase <==> s.completed / 32 % 2 == 0) && s.expCid == (0x1000 + s.completed / 32) % 0x1_0000
            && (Ready(s) <==> s.completed < s.posted)
            && (Ready(s) ==> s.pc == Rung && s.acq[s.acqHead].serial == s.submitted - 1
                             && s.acq[s.acqHead].cid == s.expCid)
  {
    Reachable(b, k);
    ReadyIffPosted(b[k]);
  }

  /** Every completion is consumed once and in order: the n-th entry consumed answers command n. */
  lemma ConsumedInOrder(b: seq<State>, k: nat)
    requires Behaviour(b) && k + 1 < |b| && b[k + 1].completed != b[k].completed
    ensures Shaped(b[k]) && b[k].pc == Rung && b[k + 1].completed == b[k].completed + 1
    ensures b[k].acq[b[k].acqHead].serial == b[k].completed < b[k].posted
  {
    Reachable(b, k);
    ReadyIffPosted(b[k]);
  }

  // ----- the doorbells -----

  const WORD32: nat := 0x1_0000_0000

  // The field of CAP that holds the distance between doorbells, 4 bits at bit 32.
  function Stride(cap: Word64): (n: nat)
    ensures n < 16
  {
    FieldBelow(cap, 32, 4);
    assert Pow2(1) == 2 && Pow2(2) == 4 && Pow2(3) == 8 && Pow2(4) == 16;
    Value(Get(cap, 32, 4))
  }

  lemma FieldBelow(w: Word, off: nat, size: nat)
    requires 1 <= size <= |w|
    ensures Value(Get(w, off, size)) < Pow2(size)
  {
    forall i | size <= i < |w| ensures !Get(w, off, size)[i] { GetBit(w, off, size, i); }
    FitsIsBelow(Get(w, off, size), size);
  }

  // Doorbell y of queue qid: number 2 * qid + y, at the distance the stride gives, in 32 bits.
  function DoorbellOffset(qid: nat, y: nat, dstrd: nat): nat {
    0x1000 + (2 * qid + y) % WORD32 * (4 * Pow2(dstrd)) % WORD32
  }

  /** Doorbells share an address exactly when their numbers agree modulo 2^(30 - stride): the product
      wraps at 32 bits. */
  lemma BellsMeetIff(q: nat, y: nat, q': nat, y': nat, dstrd: nat)
    requires dstrd <= 30
    ensures Pow2(30 - dstrd) > 0
    ensures DoorbellOffset(q, y, dstrd) == DoorbellOffset(q', y', dstrd)
            <==> (2 * q + y) % Pow2(30 - dstrd) == (2 * q' + y') % Pow2(30 - dstrd)
  {
    var w, m := 4 * Pow2(dstrd), Pow2(30 - dstrd);
    PowPositive(dstrd);
    PowPositive(30 - dstrd);
    Powers(dstrd);
    Product(2 * q + y, m, w);
    Product(2 * q' + y', m, w);
    SameFactor((2 * q + y) % m, (2 * q' + y') % m, w);
  }

  /** So all doorbells of the queues below 2^(29 - stride) have addresses of their own. */
  lemma BellsApart(q: nat, y: nat, q': nat, y': nat, dstrd: nat)
    requires dstrd <= 29 && y <= 1 && y' <= 1 && q < Pow2(29 - dstrd) && q' < Pow2(29 - dstrd)
    ensures DoorbellOffset(q, y, dstrd) == DoorbellOffset(q', y', dstrd) <==> q == q' && y == y'
  {
    BellsMeetIff(q, y, q', y', dstrd);
    NumbersApart(q, y, q', y', Pow2(29 - dstrd));
  }

  lemma NumbersApart(q: nat, y: nat, q': nat, y': nat, k: nat)
    requires y <= 1 && y' <= 1 && q < k && q' < k
    ensures (2 * q + y) % (2 * k) == (2 * q' + y') % (2 * k) <==> q == q' && y == y'
  {
    SmallMod(2 * q + y, 2 * k);
    SmallMod(2 * q' + y', 2 * k);
  }

  /** With the largest stride, queue 0x4000 rings the doorbell of queue 0. */
  lemma BellsMeet()
    ensures DoorbellOffset(0x4000, 0, 15) == DoorbellOffset(0, 0, 15)
  {
    assert Pow2(15) == 0x8000;
    BellsMeetIff(0x4000, 0, 0, 0, 15);
  }

  lemma {:induction false} PowAdd(a: nat, b: nat)
    ensures Pow2(a + b) == Pow2(a) * Pow2(b)
  {
    if a > 0 {
      PowAdd(a - 1, b);
      MulAssoc(2, Pow2(a - 1), Pow2(b));
    }
  }

  lemma Powers(d: nat)
    requires d <= 30
    ensures Pow2(30 - d) * (4 * Pow2(d)) == WORD32
  {
    PowAdd(30 - d, d);
    PowThirty();
    Reorder(Pow2(30 - d), Pow2(d));
  }

  lemma PowThirty()
    ensures Pow2(30) == 0x4000_0000
  {
    assert Pow2(15) == 0x8000;
    PowAdd(15, 15);
  }

  lemma Reorder(a: nat, b: nat)
    ensures a * (4 * b) == 4 * (a * b)
  {
  }

  // A multiple of w, reduced modulo m * w before and after the product.
  lemma Product(x: nat, m: nat, w: nat)
    requires 0 < m && 0 < w && m * w == WORD32
    ensures x % WORD32 * w % WORD32 == x % m * w
  {
    var q, r := x % WORD32 / m, x % WORD32 % m;
    assert x % WORD32 == q * m + r;
    assert x % WORD32 * w == q * WORD32 + r * w by {
      assert (q * m + r) * w == q * (m * w) + r * w;
    }
    MulMono(r + 1, m, w);
    DivModUnique(x % WORD32 * w, WORD32, q, r * w);
    assert m * w == w * m;
    ModMod(x, w, m);
  }

  lemma SameFactor(a: nat, b: nat, w: nat)
    requires 0 < w
    ensures a * w == b * w <==> a == b
  {
    if a < b { MulMono(a + 1, b, w); } else if b < a { MulMono(b + 1, a, w); }
  }

  // ----- the code -----

  /** What an entry of the completion ring holds in memory. */
  datatype Completion = Completion(p: bool, cid: nat)

  /** The static variables and rings of the driver, and the doorbells as the device sees them. */
  class Driver {
    var asqTail: nat
    var acqHead: nat
    var acqPhase: bool
    var expCid: nat
    // The command identifiers in the submission ring, and the completion ring.
    const asq: array<nat>
    const acq: array<Completion>
    // The CAP register, which is read-only, and the doorbells.
    const cap: Word64
    var doorbells: map<nat, nat>
    // What the driver does not hold: the controller, the program point, the counters and serials.
    ghost var rest: State

    ghost predicate Valid()
      reads this
    {
      && asq.Length == ENTRIES && acq.Length == ENTRIES && asqTail < ENTRIES && acqHead < ENTRIES
      && |rest.asq| == ENTRIES && |rest.acq| == ENTRIES && rest.sqHead < ENTRIES && rest.cqTail < ENTRIES
      && Bell(0, 0) in doorbells && Bell(0, 1) in doorbells
    }

    constructor (cap: Word64)
      ensures Valid() && View() == Init() && this.cap == cap && fresh(asq) && fresh(acq)
    {
      asqTail, acqHead, acqPhase, expCid := 0, 0, true, 0x1000;
      asq := new nat[ENTRIES](_ => 0);
      acq := new Completion[ENTRIES](_ => Completion(false, 0));
      this.cap := cap;
      doorbells := map[DoorbellOffset(0, 0, Stride(cap)) := 0, DoorbellOffset(0, 1, Stride(cap)) := 0];
      rest := Init();
    }

    function Bell(qid: nat, y: nat): nat { DoorbellOffset(qid, y, Stride(cap)) }

    ghost function Commands(): (r: seq<Sqe>)
      requires Valid()
      reads this, asq
      ensures |r| == ENTRIES
    {
      seq(ENTRIES, k requires 0 <= k < ENTRIES && Valid() reads this, asq => Sqe(asq[k], rest.asq[k].serial))
    }

    ghost function Completions(): (r: seq<Cqe>)
      requires Valid()
      reads this, acq
      ensures |r| == ENTRIES
    {
      seq(ENTRIES, k requires 0 <= k < ENTRIES && Valid() reads this, acq =>
        Cqe(acq[k].p, acq[k].cid, rest.acq[k].serial))
    }

    // The protocol state: the driver's own part, and the rest as it was when the driver last ran.
    ghost function View(): State
      requires Valid()
      reads this, asq, acq
    {
      rest.(asqTail := asqTail, acqHead := acqHead, acqPhase := acqPhase, expCid := expCid,
            asq := Commands(), acq := Completions(),
            sqDoorbell := doorbells[Bell(0, 0)], cqDoorbell := doorbells[Bell(0, 1)])
    }

    // Any queue number may be passed; the tail that is rung is that of the admin queue.
    method RingSubmissionDoorbell(qid: nat)
      requires Valid()
      modifies this
      ensures Valid()
      ensures doorbells == old(doorbells)[Bell(qid, 0) := (old(asqTail) + 1) % 32]
      ensures var d := StrideBits(cap);
              2 * qid < Pow2(30 - d) ==>
                doorbells == old(doorbells)[0x1000 + (2 * qid) * (4 * Pow2(d)) := (old(asqTail) + 1) % 32]
      ensures asqTail == (old(asqTail) + 1) % 32 && acqHead == old(acqHead)
      ensures acqPhase == old(acqPhase) && expCid == old(expCid)
      ensures qid == 0 ==> View() == RingSubmission(old(View()))
    {
      var newTail := (asqTail + 1) % ENTRIES;
      AdminApart(Stride(cap));
      StrideIsBits(cap);
      if 2 * qid < Pow2(30 - Stride(cap)) { BellAddress(qid, 0, cap); }
      doorbells := doorbells[Bell(qid, 0) := newTail];
      asqTail := newTail;
      rest := rest.(pc := Rung, submitted := rest.submitted + 1);
    }

    method RingCompletionDoorbell(qid: nat)
      requires Valid()
      modifies this
      ensures Valid()
      ensures doorbells == old(doorbells)[Bell(qid, 1) := (old(acqHead) + 1) % 32]
      ensures var d := StrideBits(cap);
              2 * qid + 1 < Pow2(30 - d) ==>
                doorbells == old(doorbells)[0x1000 + (2 * qid + 1) * (4 * Pow2(d)) := (old(acqHead) + 1) % 32]
      ensures acqHead == (old(acqHead) + 1) % 32 && asqTail == old(asqTail)
      ensures acqPhase == old(acqPhase) && expCid == old(expCid)
      ensures qid == 0 ==> View() == RingCompletion(old(View()))
    {
      var newHead := (acqHead + 1) % ENTRIES;
      AdminApart(Stride(cap));
      StrideIsBits(cap);
      if 2 * qid + 1 < Pow2(30 - Stride(cap)) { BellAddress(qid, 1, cap); }
      doorbells := doorbells[Bell(qid, 1) := newHead];
      acqHead := newHead;
      rest := rest.(pc := Consumed, completed := rest.completed + 1);
    }

    // nvme_command_identify up to the wait loop.
    method Submit()
      requires Valid() && rest.pc == Idle
      modifies this, asq
      ensures Valid() && View() == RingSubmission(StoreCommand(old(View())))
    {
      ghost var before := View();
      asq[asqTail] := expCid;
      rest := rest.(pc := Stored, asq := rest.asq[asqTail := Sqe(expCid, rest.submitted)]);
      assert View() == StoreCommand(before);
      RingSubmissionDoorbell(0);
    }

    // nvme_command_identify behind the wait loop.
    method Complete()
      requires Valid() && rest.pc == Rung && Ready(View())
      modifies this
      ensures Valid() && View() == Finish(RingCompletion(old(View())))
    {
      RingCompletionDoorbell(0);
      if acqHead == 0 {
        acqPhase := !acqPhase;
        expCid := (expCid + 1) % 0x1_0000;
      }
      rest := rest.(pc := Idle);
    }
  }

  // The stride as bits 32 to 35 of CAP.
  function StrideBits(cap: Word64): nat {
    (if cap[32] then 1 else 0) + (if cap[33] then 2 else 0) + (if cap[34] then 4 else 0) + (if cap[35] then 8 else 0)
  }

  lemma {:induction false} ZeroValue(w: Word)
    requires forall i :: 0 <= i < |w| ==> !w[i]
    ensures Value(w) == 0
  {
    if w != [] { ZeroValue(w[1..]); }
  }

  lemma FourBits(w: Word)
    requires 4 <= |w| && forall i :: 4 <= i < |w| ==> !w[i]
    ensures Value(w) == (if w[0] then 1 else 0) + (if w[1] then 2 else 0) + (if w[2] then 4 else 0)
                        + (if w[3] then 8 else 0)
  {
    ZeroValue(w[4..]);
    assert w[1..][1..] == w[2..] && w[2..][1..] == w[3..] && w[3..][1..] == w[4..];
    assert Value(w[3..]) == if w[3] then 1 else 0;
    assert Value(w[2..]) == (if w[2] then 1 else 0) + 2 * Value(w[3..]);
    assert Value(w[1..]) == (if w[1] then 1 else 0) + 2 * Value(w[2..]);
  }

  lemma StrideIsBits(cap: Word64)
    ensures Stride(cap) == StrideBits(cap)
  {
    forall i | 0 <= i < 64 ensures Get(cap, 32, 4)[i] <==> i < 4 && 32 + i < 64 && cap[32 + i] {
      GetBit(cap, 32, 4, i);
    }
    FourBits(Get(cap, 32, 4));
  }

  /** As long as its number is below 2^(30 - stride), a doorbell is where section 3.1 of the NVM Express
      specification puts it: at 0x1000 plus the number times 4 times 2^stride. */
  lemma BellAddress(q: nat, y: nat, cap: Word64)
    requires 2 * q + y < Pow2(30 - Stride(cap))
    ensures DoorbellOffset(q, y, Stride(cap)) == 0x1000 + (2 * q + y) * (4 * Pow2(StrideBits(cap)))
  {
    var d := Stride(cap);
    StrideIsBits(cap);
    PowPositive(d);
    Powers(d);
    Product(2 * q + y, Pow2(30 - d), 4 * Pow2(d));
    SmallMod(2 * q + y, Pow2(30 - d));
  }

  // The two doorbells of the admin queue have different addresses with every stride.
  lemma AdminApart(dstrd: nat)
    requires dstrd < 16
    ensures DoorbellOffset(0, 0, dstrd) != DoorbellOffset(0, 1, dstrd)
  {
    PowPositive(29 - dstrd);
    BellsApart(0, 0, 0, 1, dstrd);
  }
}
