/** boot/kernel/kernel.c, lines 148 to 167: the controller is disabled, configured and enabled
    (section 7.6.1 of the NVM Express Base Specification 1.4), with a controller at work beside it. */
module NvmeHandshake {
  import opened Machine
  import opened Registers

  // Word indexes of the registers: offsets 0x14, 0x1c, 0x24, 0x28 and 0x30.
  const CC: nat := 5
  const CSTS: nat := 7
  const AQA: nat := 9
  const ASQ: nat := 10
  const ACQ: nat := 12
  const FILE: nat := 14

  type File = f: seq<Word32> | |f| == FILE witness seq(FILE, _ => seq(32, _ => false))

  // A number as a word.
  function Num(n: nat, width: nat): (w: Word)
    ensures |w| == width
  {
    seq(width, i requires 0 <= i < width => (PowPositive(i); n / Pow2(i) % 2 == 1))
  }

  lemma {:induction false} PowGrows(a: nat, b: nat)
    requires a <= b
    ensures Pow2(a) <= Pow2(b)
  {
    if a < b { PowGrows(a, b - 1); PowPositive(b - 1); }
  }

  lemma NumFits(n: nat, width: nat, size: nat)
    requires n < Pow2(size)
    ensures Registers.Fits(Num(n, width), size)
  {
    forall i | size <= i < width ensures !Num(n, width)[i] {
      PowGrows(size, i);
      SmallQuotient(n, Pow2(i));
    }
  }

  /** And it is that number when it fits. */
  lemma {:induction false} NumValue(n: nat, width: nat)
    requires n < Pow2(width)
    ensures Value(Num(n, width)) == n
  {
    if width > 0 {
      NumValue(n / 2, width - 1);
      var rest, half := Num(n, width)[1..], Num(n / 2, width - 1);
      forall i: nat | i < width - 1 ensures rest[i] == half[i] {
        PowPositive(i);
        HalfFirst(n, Pow2(i));
      }
      assert rest == half;
      assert Pow2(0) == 1 && (Num(n, width)[0] <==> n % 2 == 1);
    }
  }

  lemma HalfFirst(n: nat, d: nat)
    requires 0 < d
    ensures n / (2 * d) == n / 2 / d
  {
    var q, r := n / 2 / d, n / 2 % d;
    assert n == 2 * (n / 2) + n % 2 && n / 2 == q * d + r;
    MulAssoc(2, q, d);
    assert n == q * (2 * d) + (2 * r + n % 2) by { assert 2 * (q * d) == q * (2 * d); }
    DivModUnique(n, 2 * d, q, 2 * r + n % 2);
  }

  datatype Field = Field(off: nat, value: nat, size: nat)

  /** The driver's instructions: a field write, a 64-bit field write, or a poll of CSTS.RDY. */
  datatype Instr = Write32(r: nat, f: Field) | Write64(r: nat, off: nat, word: Word64, size: nat) | Poll(rdy: bool)

  const LENGTH: nat := 14

  // Lines 149 to 166.
  function Code(k: nat, asq: Word64, acq: Word64): (i: Instr)
    requires k < LENGTH
    ensures Sound(i)
  {
    match k
    case 0 => Write32(CC, Field(0, 0, 1))
    case 1 => Poll(false)
    case 2 => Write32(AQA, Field(0, 31, 12))
    case 3 => Write32(AQA, Field(16, 31, 12))
    case 4 => Write64(ASQ, 12, asq, 52)
    case 5 => Write64(ACQ, 12, acq, 52)
    case 6 => Write32(CC, Field(4, 0, 3))
    case 7 => Write32(CC, Field(7, 0, 4))
    case 8 => Write32(CC, Field(11, 0, 3))
    case 9 => Write32(CC, Field(14, 0, 2))
    case 10 => Write32(CC, Field(16, 6, 4))
    case 11 => Write32(CC, Field(20, 4, 4))
    case 12 => Write32(CC, Field(0, 1, 1))
    case _ => Poll(true)
  }

  predicate Sound(i: Instr) {
    match i
    case Write32(r, f) => r in {CC, AQA} && 1 <= f.size && f.off + f.size <= 32
    case Write64(r, off, word, size) => r in {ASQ, ACQ} && 1 <= size && off + size <= 64
    case Poll(_) => true
  }

  function Exec(f: File, i: Instr): File
    requires Sound(i)
  {
    match i
    case Write32(r, d) => f[r := Put(f[r], d.off, Num(d.value, 32), d.size)]
    case Write64(r, off, word, size) =>
      var w := Put(Join(f[r], f[r + 1]), off, word, size);
      f[r := Low(w)][r + 1 := HighHalf(w)]
    case Poll(_) => f
  }

  datatype State = State(pc: nat, file: File) {
    predicate En() { file[CC][0] }

    predicate Rdy() { file[CSTS][0] }
  }

  ghost predicate Init(s: State) { s.pc == 0 }

  /** One instruction of the driver; a poll passes only when RDY has the awaited value. */
  ghost predicate DriverStep(asq: Word64, acq: Word64, s: State, s': State) {
    && s.pc < LENGTH && s'.pc == s.pc + 1 && s'.file == Exec(s.file, Code(s.pc, asq, acq))
    && (Code(s.pc, asq, acq).Poll? ==> s.Rdy() == Code(s.pc, asq, acq).rdy)
  }

  /** The controller writes CSTS only, and RDY can only become what EN is. */
  ghost predicate ControllerStep(s: State, s': State) {
    && s'.pc == s.pc && s'.file == s.file[CSTS := s'.file[CSTS]]
    && (s'.Rdy() == s.Rdy() || s'.Rdy() == s.En())
  }

  ghost predicate Next(asq: Word64, acq: Word64, s: State, s': State) {
    DriverStep(asq, acq, s, s') || ControllerStep(s, s')
  }

  ghost predicate Behaviour(asq: Word64, acq: Word64, b: seq<State>) {
    b != [] && Init(b[0]) && forall k :: 0 <= k < |b| - 1 ==> Next(asq, acq, b[k], b[k + 1])
  }

  // The register file after the first k instructions, apart from CSTS.
  function Written(f: File, asq: Word64, acq: Word64, k: nat): File
    requires k <= LENGTH
  {
    if k == 0 then f else Exec(Written(f, asq, acq, k - 1), Code(k - 1, asq, acq))
  }

  predicate SameButStatus(f: File, g: File) { forall r :: 0 <= r < FILE && r != CSTS ==> f[r] == g[r] }

  ghost predicate Inv(f: File, asq: Word64, acq: Word64, s: State) {
    && s.pc <= LENGTH && SameButStatus(s.file, Written(f, asq, acq, s.pc))
    && (2 <= s.pc <= 12 ==> !s.Rdy())
    && (s.pc == LENGTH ==> s.Rdy())
  }

  // EN as the program leaves it.
  lemma {:induction false} EnAt(f: File, asq: Word64, acq: Word64, k: nat)
    requires 1 <= k <= LENGTH
    ensures Written(f, asq, acq, k)[CC][0] <==> 13 <= k
    decreases k
  {
    if k > 1 { EnAt(f, asq, acq, k - 1); }
    var before := Written(f, asq, acq, k - 1);
    match Code(k - 1, asq, acq)
    case Write32(r, d) =>
      if r == CC {
        PutBit(before[CC], d.off, Num(d.value, 32), d.size, 0);
        assert Pow2(0) == 1;
      }
    case Write64(_, _, _, _) =>
    case Poll(_) =>
  }

  lemma DriverKeepsInv(f: File, asq: Word64, acq: Word64, s: State, s': State)
    requires Inv(f, asq, acq, s) && DriverStep(asq, acq, s, s')
    ensures Inv(f, asq, acq, s')
  {
    var g := Written(f, asq, acq, s.pc);
    assert Written(f, asq, acq, s'.pc) == Exec(g, Code(s.pc, asq, acq));
    ExecAlike(s.file, g, Code(s.pc, asq, acq));
  }

  // An instruction does not read CSTS when it writes.
  lemma ExecAlike(f: File, g: File, i: Instr)
    requires Sound(i) && SameButStatus(f, g)
    ensures SameButStatus(Exec(f, i), Exec(g, i)) && Exec(f, i)[CSTS] == f[CSTS]
  {
  }

  lemma ControllerKeepsInv(f: File, asq: Word64, acq: Word64, s: State, s': State)
    requires Inv(f, asq, acq, s) && ControllerStep(s, s')
    ensures Inv(f, asq, acq, s')
  {
    if s.pc >= 1 { EnAt(f, asq, acq, s.pc); }
  }

  lemma StepKeepsInv(f: File, asq: Word64, acq: Word64, s: State, s': State)
    requires Inv(f, asq, acq, s) && Next(asq, acq, s, s')
    ensures Inv(f, asq, acq, s')
  {
    if DriverStep(asq, acq, s, s') {
      DriverKeepsInv(f, asq, acq, s, s');
    } else {
      ControllerKeepsInv(f, asq, acq, s, s');
    }
  }

  lemma {:induction false} Reachable(asq: Word64, acq: Word64, b: seq<State>, k: nat)
    requires Behaviour(asq, acq, b) && k < |b|
    ensures Inv(b[0].file, asq, acq, b[k])
  {
    if k > 0 {
      Reachable(asq, acq, b, k - 1);
      StepKeepsInv(b[0].file, asq, acq, b[k - 1], b[k]);
    }
  }

  predicate QueueRegister(r: nat) { r == AQA || ASQ <= r < FILE }

  // The instruction writes register r, whether or not the value there changes.
  predicate Writes(i: Instr, r: nat) {
    match i
    case Write32(r', _) => r == r'
    case Write64(r', _, _, _) => r' <= r <= r' + 1
    case Poll(_) => false
  }

  /** In every interleaving the driver writes the queue registers only while EN = 0 and RDY = 0,
      before the write and after it, also where a write would not change the value. */
  lemma QueuesWrittenWhileDisabled(asq: Word64, acq: Word64, b: seq<State>, k: nat, r: nat)
    requires Behaviour(asq, acq, b) && k + 1 < |b| && QueueRegister(r)
    requires DriverStep(asq, acq, b[k], b[k + 1]) && Writes(Code(b[k].pc, asq, acq), r)
    ensures !b[k].En() && !b[k].Rdy() && !b[k + 1].En() && !b[k + 1].Rdy()
  {
    Reachable(asq, acq, b, k);
    Reachable(asq, acq, b, k + 1);
    assert 2 <= b[k].pc <= 5;
    EnAt(b[0].file, asq, acq, b[k].pc);
    EnAt(b[0].file, asq, acq, b[k].pc + 1);
  }

  /** And nothing else changes them: a step after which a queue register differs writes it. */
  lemma OnlyWritesChange(asq: Word64, acq: Word64, s: State, s': State, r: nat)
    requires Next(asq, acq, s, s') && r < FILE && QueueRegister(r) && s.file[r] != s'.file[r]
    ensures DriverStep(asq, acq, s, s') && Writes(Code(s.pc, asq, acq), r)
  {
  }

  // ----- what the program leaves behind -----

  predicate Holds(f: File, r: nat, d: Field)
    requires r < FILE && 1 <= d.size <= 32
  {
    Get(f[r], d.off, d.size) == Num(d.value, 32)
  }

  // Write32 instructions of the program: their fields lie in the word and their values fit.
  lemma ProgramFits(asq: Word64, acq: Word64, k: nat)
    requires k < LENGTH && Code(k, asq, acq).Write32?
    ensures var d := Code(k, asq, acq).f;
            Registers.Fits(Num(d.value, 32), d.size)
  {
    var d := Code(k, asq, acq).f;
    assert Pow2(1) == 2 && Pow2(2) == 4 && Pow2(3) == 8 && Pow2(4) == 16;
    PowGrows(5, 12);
    assert Pow2(5) == 32;
    NumFits(d.value, 32, d.size);
  }

  // After the first write to CC.EN no two writes of the program overlap.
  lemma ProgramDisjoint(asq: Word64, acq: Word64, m: nat, k: nat)
    requires 2 <= m < k < LENGTH && Code(m, asq, acq).Write32? && Code(k, asq, acq).Write32?
    requires Code(m, asq, acq).r == Code(k, asq, acq).r
    ensures var d, e := Code(m, asq, acq).f, Code(k, asq, acq).f;
            d.off + d.size <= e.off || e.off + e.size <= d.off
  {
  }

  lemma FieldIsWritten(before: File, asq: Word64, acq: Word64, m: nat)
    requires m < LENGTH && Code(m, asq, acq).Write32?
    ensures HasField(Exec(before, Code(m, asq, acq)), asq, acq, m)
  {
    var r, d := Code(m, asq, acq).r, Code(m, asq, acq).f;
    ProgramFits(asq, acq, m);
    FieldRoundTrip(before[r], d.off, Num(d.value, 32), d.size);
  }

  lemma WrittenNext(f: File, asq: Word64, acq: Word64, k: nat, k': nat)
    requires k' == k + 1 <= LENGTH
    ensures Written(f, asq, acq, k') == Exec(Written(f, asq, acq, k), Code(k, asq, acq))
  {
  }

  // The field that instruction m writes reads as written in file g.
  predicate HasField(g: File, asq: Word64, acq: Word64, m: nat)
    requires m < LENGTH && Code(m, asq, acq).Write32?
  {
    Holds(g, Code(m, asq, acq).r, Code(m, asq, acq).f)
  }

  lemma OneStepKeepsField(before: File, asq: Word64, acq: Word64, m: nat, k: nat)
    requires 2 <= m < k < LENGTH && Code(m, asq, acq).Write32?
    requires HasField(before, asq, acq, m)
    ensures HasField(Exec(before, Code(k, asq, acq)), asq, acq, m)
  {
    var r, d := Code(m, asq, acq).r, Code(m, asq, acq).f;
    match Code(k, asq, acq)
    case Write32(r', e) =>
      if r' == r {
        ProgramFits(asq, acq, m);
        ProgramFits(asq, acq, k);
        ProgramDisjoint(asq, acq, m, k);
        DisjointField(before[r], e.off, Num(e.value, 32), e.size, d.off, d.size);
      }
    case Write64(_, _, _, _) =>
    case Poll(_) =>
  }

  // Bit i of register r that no instruction names: in CC, in AQA, and below the queue addresses.
  predicate Unnamed(r: nat, i: nat) {
    && r < FILE && r != CSTS && i < 32
    && (r == CC ==> 1 <= i <= 3 || 24 <= i) && (r == AQA ==> 12 <= i < 16 || 28 <= i)
    && (r in {ASQ, ACQ} ==> i < 12) && r !in {ASQ + 1, ACQ + 1}
  }

  /** After k instructions: the fields written so far, CC.EN aside, read as written, and the
      unnamed bits are those of file f. */
  ghost predicate Kept(f: File, g: File, asq: Word64, acq: Word64, k: nat)
    requires k <= LENGTH
  {
    && (forall m :: 2 <= m < k && Code(m, asq, acq).Write32? ==> HasField(g, asq, acq, m))
    && AsFound(f, g)
  }

  ghost predicate AsFound(f: File, g: File) { forall r: nat, i: nat :: Unnamed(r, i) ==> g[r][i] == f[r][i] }

  lemma KeptNext(f: File, g: File, g': File, asq: Word64, acq: Word64, k: nat, k': nat)
    requires k' == k + 1 <= LENGTH && Kept(f, g, asq, acq, k) && g' == Exec(g, Code(k, asq, acq))
    ensures Kept(f, g', asq, acq, k')
  {
    forall m | 2 <= m < k' && Code(m, asq, acq).Write32? ensures HasField(g', asq, acq, m) {
      if m < k {
        OneStepKeepsField(g, asq, acq, m, k);
      } else {
        FieldIsWritten(g, asq, acq, k);
      }
    }
    forall r: nat, i: nat | Unnamed(r, i) ensures g'[r][i] == f[r][i] { OneStepKeepsBit(g, asq, acq, k, r, i); }
  }

  lemma {:induction false} KeptAt(f: File, g: File, asq: Word64, acq: Word64, k: nat)
    requires k <= LENGTH && g == Written(f, asq, acq, k)
    ensures Kept(f, g, asq, acq, k)
    decreases k
  {
    if k > 0 {
      var before := Written(f, asq, acq, k - 1);
      KeptAt(f, before, asq, acq, k - 1);
      WrittenNext(f, asq, acq, k - 1, k);
      KeptNext(f, before, g, asq, acq, k - 1, k);
    }
  }

  lemma OneStepKeepsBit(before: File, asq: Word64, acq: Word64, k: nat, r: nat, i: nat)
    requires k < LENGTH && Unnamed(r, i)
    ensures Exec(before, Code(k, asq, acq))[r][i] == before[r][i]
  {
    match Code(k, asq, acq)
    case Write32(r', d) =>
      if r == r' {
        ProgramFits(asq, acq, k);
        PutBit(before[r], d.off, Num(d.value, 32), d.size, i);
      }
    case Write64(r', off, word, size) =>
      if r == r' {
        LowBitKept(before, r, word, i);
      }
    case Poll(_) =>
  }

  // The bits below a queue address.
  lemma LowBitKept(before: File, r: nat, word: Word64, i: nat)
    requires r in {ASQ, ACQ} && i < 12
    ensures Exec(before, Write64(r, 12, word, 52))[r][i] == before[r][i]
  {
    PutBit(Join(before[r], before[r + 1]), 12, word, 52, i);
    JoinBit(before[r], before[r + 1], i);
  }

  // A 64-bit write of a fitting value reads back.
  lemma QueueIsWritten(before: File, r: nat, word: Word64)
    requires r in {ASQ, ACQ} && Registers.Fits(word, 52)
    ensures var g := Exec(before, Write64(r, 12, word, 52)); Get(Join(g[r], g[r + 1]), 12, 52) == word
  {
    var w := Put(Join(before[r], before[r + 1]), 12, word, 52);
    SplitJoin(w);
    FieldRoundTrip(Join(before[r], before[r + 1]), 12, word, 52);
  }

  lemma QueuesConfigured(f: File, asq: Word64, acq: Word64)
    ensures var g := Written(f, asq, acq, 6);
            && (Registers.Fits(asq, 52) ==> Get(Join(g[10], g[11]), 12, 52) == asq)
            && (Registers.Fits(acq, 52) ==> Get(Join(g[12], g[13]), 12, 52) == acq)
  {
    var f4, f5 := Written(f, asq, acq, 4), Written(f, asq, acq, 5);
    assert f5 == Exec(f4, Code(4, asq, acq)) && Written(f, asq, acq, 6) == Exec(f5, Code(5, asq, acq));
    if Registers.Fits(asq, 52) { QueueIsWritten(f4, ASQ, asq); }
    if Registers.Fits(acq, 52) { QueueIsWritten(f5, ACQ, acq); }
  }

  lemma QueueBasesAt(f: File, asq: Word64, acq: Word64, k: nat)
    requires 6 <= k <= LENGTH && forall r :: 0 <= r < FILE && QueueRegister(r) ==>
               Written(f, asq, acq, k)[r] == Written(f, asq, acq, 6)[r]
    ensures var g := Written(f, asq, acq, k);
            && (Registers.Fits(asq, 52) ==> Get(Join(g[10], g[11]), 12, 52) == asq)
            && (Registers.Fits(acq, 52) ==> Get(Join(g[12], g[13]), 12, 52) == acq)
  {
    QueuesConfigured(f, asq, acq);
  }

  // The queue registers are not written again.
  lemma {:induction false} QueuesStay(f: File, asq: Word64, acq: Word64, k: nat)
    requires 6 <= k <= LENGTH
    ensures forall r :: 0 <= r < FILE && QueueRegister(r) ==>
              Written(f, asq, acq, k)[r] == Written(f, asq, acq, 6)[r]
    decreases k
  {
    if k > 6 {
      QueuesStay(f, asq, acq, k - 1);
    }
  }

  // A field that reads as programmed has the programmed value.
  lemma FieldValue(g: File, asq: Word64, acq: Word64, m: nat)
    requires m < LENGTH && Code(m, asq, acq).Write32? && HasField(g, asq, acq, m)
    ensures var i := Code(m, asq, acq); Value(Get(g[i.r], i.f.off, i.f.size)) == i.f.value
  {
    PowGrows(5, 32);
    assert Pow2(5) == 32;
    NumValue(Code(m, asq, acq).f.value, 32);
  }

  /** The fields of AQA (offset 0x24) and of CC (offset 0x14) as the code means them: queues of 32
      entries, and entries of 2^6 and 2^4 bytes. */
  predicate Programmed(g: File) {
    && Value(Get(g[9], 0, 12)) == 31 && Value(Get(g[9], 16, 12)) == 31
    && Value(Get(g[5], 4, 3)) == 0 && Value(Get(g[5], 7, 4)) == 0 && Value(Get(g[5], 11, 3)) == 0
    && Value(Get(g[5], 14, 2)) == 0 && Value(Get(g[5], 16, 4)) == 6 && Value(Get(g[5], 20, 4)) == 4
  }

  lemma ProgramIsDone(f: File, g: File, asq: Word64, acq: Word64, k: nat)
    requires 12 <= k <= LENGTH && Kept(f, g, asq, acq, k)
    ensures Programmed(g)
  {
    assert Code(2, asq, acq) == Write32(9, Field(0, 31, 12)) && Code(3, asq, acq) == Write32(9, Field(16, 31, 12));
    assert Code(6, asq, acq) == Write32(5, Field(4, 0, 3)) && Code(7, asq, acq) == Write32(5, Field(7, 0, 4));
    assert Code(8, asq, acq) == Write32(5, Field(11, 0, 3)) && Code(9, asq, acq) == Write32(5, Field(14, 0, 2));
    assert Code(10, asq, acq) == Write32(5, Field(16, 6, 4)) && Code(11, asq, acq) == Write32(5, Field(20, 4, 4));
    FieldValue(g, asq, acq, 2);
    FieldValue(g, asq, acq, 3);
    FieldValue(g, asq, acq, 6);
    FieldValue(g, asq, acq, 7);
    FieldValue(g, asq, acq, 8);
    FieldValue(g, asq, acq, 9);
    FieldValue(g, asq, acq, 10);
    FieldValue(g, asq, acq, 11);
  }

  // The fields do not depend on CSTS.
  lemma ProgrammedAlike(f: File, g: File, g': File)
    requires Programmed(g) && AsFound(f, g) && SameButStatus(g', g)
    ensures Programmed(g') && AsFound(f, g')
  {
    assert g'[5] == g[5] && g'[9] == g[9];
  }

  /** When the handshake completes, RDY = 1 and EN = 1, the fields of AQA and CC have the programmed values,
      ASQ and ACQ (offsets 0x28 and 0x30) hold the two addresses passed from bit 12 on, as the configuration
      steps left them, and all other bits but those of CSTS are as they were found, in every interleaving
      with the controller. */
  lemma CompletedIsConfigured(asq: Word64, acq: Word64, b: seq<State>, k: nat)
    requires Behaviour(asq, acq, b) && k < |b| && b[k].pc == LENGTH
    requires Registers.Fits(asq, 52) && Registers.Fits(acq, 52)
    ensures var f, s := b[0].file, b[k];
            && s.file[7][0] && s.file[5][0] && Programmed(s.file)
            && Get(Join(s.file[10], s.file[11]), 12, 52) == asq && Get(Join(s.file[12], s.file[13]), 12, 52) == acq
            && (forall r :: 0 <= r < FILE && QueueRegister(r) ==> s.file[r] == Written(f, asq, acq, 6)[r])
            && AsFound(f, s.file)
  {
    var f := b[0].file;
    Reachable(asq, acq, b, k);
    EnAt(f, asq, acq, LENGTH);
    QueuesConfigured(f, asq, acq);
    QueuesStay(f, asq, acq, LENGTH);
    FieldsConfigured(f, asq, acq, LENGTH);
    ProgrammedAlike(f, Written(f, asq, acq, LENGTH), b[k].file);
  }

  lemma FieldsConfigured(f: File, asq: Word64, acq: Word64, k: nat)
    requires 12 <= k <= LENGTH
    ensures Programmed(Written(f, asq, acq, k)) && AsFound(f, Written(f, asq, acq, k))
  {
    KeptAt(f, Written(f, asq, acq, k), asq, acq, k);
    ProgramIsDone(f, Written(f, asq, acq, k), asq, acq, k);
  }

  /** Lines 155 and 156 pass a full physical address to a field that starts at bit 12. The register,
      whose low 12 bits are reserved and clear, then holds the queue's address only if that is 0. */
  lemma QueueBaseIff(w: Word64, asq: Word64)
    requires Registers.Fits(asq, 52) && forall i :: 0 <= i < 12 ==> !w[i]
    ensures Put(w, 12, asq, 52) == asq <==> forall i :: 0 <= i < 64 ==> !asq[i]
  {
    var r := Put(w, 12, asq, 52);
    forall i | 0 <= i < 64 ensures r[i] == (12 <= i && asq[i - 12]) { PutBit(w, 12, asq, 52, i); }
    if r == asq {
      forall i: nat | i < 64 ensures !asq[i] { ShiftedToZero(asq, r, i); }
    }
  }

  lemma {:induction false} ShiftedToZero(asq: Word64, r: Word64, i: nat)
    requires r == asq && i < 64 && forall j :: 0 <= j < 64 ==> r[j] == (12 <= j && asq[j - 12])
    ensures !asq[i]
  {
    if 12 <= i {
      ShiftedToZero(asq, r, i - 12);
    }
  }

  /** A queue at address 0x1000: the register gets bit 24 where the address has bit 12. */
  lemma QueueBaseMoved()
    ensures var w := seq(64, _ => false);
            Put(w, 12, w[12 := true], 52) == w[24 := true]
  {
    var w: Word64 := seq(64, _ => false);
    var asq: Word64 := w[12 := true];
    forall i | 0 <= i < 64 ensures Put(w, 12, asq, 52)[i] == w[24 := true][i] { PutBit(w, 12, asq, 52, i); }
  }

  // ----- the code -----

  /** Lines 153 to 162, on a controller that was disabled: the ten configuration writes. */
  method Configure(m: Mmio, asq: Word64, acq: Word64, ghost f: File)
    requires m.regs.Length == FILE && m.regs[..] == Written(f, asq, acq, 2)
    modifies m.regs
    ensures m.regs[..] == Written(f, asq, acq, 12)
    ensures Programmed(m.regs[..]) && AsFound(f, m.regs[..])
    ensures Registers.Fits(asq, 52) ==> Get(Join(m.regs[10], m.regs[11]), 12, 52) == asq
    ensures Registers.Fits(acq, 52) ==> Get(Join(m.regs[12], m.regs[13]), 12, 52) == acq
  {
    FieldsConfigured(f, asq, acq, 12);
    QueuesStay(f, asq, acq, 12);
    QueueBasesAt(f, asq, acq, 12);
    QueueSizes(m, asq, acq, f);
    QueueBases(m, asq, acq, f);
    EntryFields(m, asq, acq, f);
  }

  // Lines 157 to 162.
  method EntryFields(m: Mmio, ghost asq: Word64, ghost acq: Word64, ghost f: File)
    requires m.regs.Length == FILE && m.regs[..] == Written(f, asq, acq, 6)
    modifies m.regs
    ensures m.regs[..] == Written(f, asq, acq, 12)
  {
    m.Write32(CC, 4, Num(0, 32), 3);
    assert m.regs[..] == Written(f, asq, acq, 7);
    m.Write32(CC, 7, Num(0, 32), 4);
    assert m.regs[..] == Written(f, asq, acq, 8);
    m.Write32(CC, 11, Num(0, 32), 3);
    assert m.regs[..] == Written(f, asq, acq, 9);
    m.Write32(CC, 14, Num(0, 32), 2);
    assert m.regs[..] == Written(f, asq, acq, 10);
    m.Write32(CC, 16, Num(6, 32), 4);
    assert m.regs[..] == Written(f, asq, acq, 11);
    m.Write32(CC, 20, Num(4, 32), 4);
  }

  // Lines 153 and 154: NVME_ADMIN_QUEUE_ENTRIES - 1 for both queues.
  method QueueSizes(m: Mmio, ghost asq: Word64, ghost acq: Word64, ghost f: File)
    requires m.regs.Length == FILE && m.regs[..] == Written(f, asq, acq, 2)
    modifies m.regs
    ensures m.regs[..] == Written(f, asq, acq, 4)
  {
    m.Write32(AQA, 0, Num(31, 32), 12);
    assert m.regs[..] == Written(f, asq, acq, 3);
    m.Write32(AQA, 16, Num(31, 32), 12);
  }

  // Lines 155 and 156.
  method QueueBases(m: Mmio, asq: Word64, acq: Word64, ghost f: File)
    requires m.regs.Length == FILE && m.regs[..] == Written(f, asq, acq, 4)
    modifies m.regs
    ensures m.regs[..] == Written(f, asq, acq, 6)
  {
    m.Write64(ASQ, 12, asq, 52);
    assert m.regs[..] == Written(f, asq, acq, 5);
    m.Write64(ACQ, 12, acq, 52);
  }
}
