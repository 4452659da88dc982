/** The packed waker of kernel/sched/src/waker.rs: 64-bit words as naturals, with the shifts, masks and
    the bitwise or spelled out. */
module Waker {
  import opened Prelude
  import opened Task

  /** Bitwise or. */
  function Or(a: nat, b: nat): nat
    decreases a + b
  {
    if a == 0 && b == 0 then 0 else 2 * Or(a / 2, b / 2) + (if a % 2 == 1 || b % 2 == 1 then 1 else 0)
  }

  const TWO_56: nat := 0x100_0000_0000_0000
  const TWO_62: nat := 0x4000_0000_0000_0000

  /** Task ids that fit bits 55-0. */
  const ID_LIMIT: nat := TWO_56

  /** CPU numbers that fit bits 61-56. */
  const CPU_LIMIT: nat := 64

  /** The data word of a `RawWaker`. */
  type Waker = nat

  function PriorityBits(p: Priority): nat {
    match p
    case Critical => 0
    case Normal => 1
    case Background => 2
  }

  /** Unknown tiers read as Normal. */
  function PriorityFromBits(b: nat): Priority {
    if b == 0 then Critical else if b == 2 then Background else Normal
  }

  /** Shifts left as a 64-bit word does, dropping what leaves it at the top. */
  function Shl(x: nat, factor: nat): nat {
    x * factor % TWO_64
  }

  function Pack(id: TaskId, p: Priority, cpu: CpuId): Waker {
    Or(Or(Shl(PriorityBits(p), TWO_62), Shl(cpu, TWO_56)), id % TWO_56)
  }

  function Unpack(w: Waker): (TaskId, Priority, CpuId) {
    (w % TWO_56, PriorityFromBits(w / TWO_62), w / TWO_56 % 64)
  }

  /** The CPU whose queue a wake is delivered to. */
  function Target(w: Waker): CpuId {
    Unpack(w).2
  }

  // ---------------------------------------------------------------------------
  // Bitwise or on separate fields
  // ---------------------------------------------------------------------------

  lemma OrDoubles(a: nat, b: nat, r: nat)
    requires r < 2
    ensures Or(2 * a, 2 * b + r) == 2 * Or(a, b) + r
  {
    assert 2 * a / 2 == a && (2 * b + r) / 2 == b && 2 * a % 2 == 0 && (2 * b + r) % 2 == r;
  }

  /** A field of `k` bits or-ed in below two others leaves both sides intact. */
  lemma {:induction false} OrFields(k: nat, hi: nat, mid: nat, lo: nat)
    requires lo < Pow2(k)
    ensures Or(hi * Pow2(k), mid * Pow2(k) + lo) == Or(hi, mid) * Pow2(k) + lo
  {
    if k > 0 {
      var m := Pow2(k - 1);
      OrFields(k - 1, hi, mid, lo / 2);
      OrFieldsStep(m, hi, mid, lo);
    }
  }

  lemma OrFieldsStep(m: nat, hi: nat, mid: nat, lo: nat)
    requires Or(hi * m, mid * m + lo / 2) == Or(hi, mid) * m + lo / 2
    ensures Or(hi * (2 * m), mid * (2 * m) + lo) == Or(hi, mid) * (2 * m) + lo
  {
    OrDoubles(hi * m, mid * m + lo / 2, lo % 2);
    Halves(hi, m);
    Halves(mid, m);
    Halves(Or(hi, mid), m);
  }

  lemma Halves(x: nat, m: nat)
    ensures x * (2 * m) == 2 * (x * m)
  {
  }

  lemma {:induction false} OrZero(a: nat)
    ensures Or(0, a) == a && Or(a, 0) == a
  {
    if a > 0 {
      OrZero(a / 2);
    }
  }

  lemma Pow2Values()
    ensures Pow2(6) == 64 && Pow2(8) == 256 && Pow2(56) == TWO_56
  {
    assert Pow2(8) == 256;
    assert Pow2(16) == 0x1_0000;
    assert Pow2(24) == 0x100_0000;
    assert Pow2(32) == 0x1_0000_0000;
    assert Pow2(40) == 0x100_0000_0000;
    assert Pow2(48) == 0x1_0000_0000_0000;
  }

  /** The priority or-ed over an eight-bit CPU number: the top two bits mix, the low six are the CPU's. */
  lemma OrPriority(b: nat, c: nat)
    ensures Or(64 * b, c) == 64 * Or(b, c / 64) + c % 64
  {
    Pow2Values();
    OrFields(6, b, c / 64, c % 64);
  }

  lemma OrBelow56(hi: nat, mid: nat, lo: nat)
    requires lo < TWO_56
    ensures Or(hi * TWO_56, mid * TWO_56 + lo) == Or(hi, mid) * TWO_56 + lo
  {
    Pow2Values();
    OrFields(56, hi, mid, lo);
  }

  lemma ShiftFields(b: nat, cpu: nat)
    requires b < 4
    ensures Shl(b, TWO_62) == 64 * b * TWO_56 && Shl(cpu, TWO_56) == cpu % 256 * TWO_56
  {
  }

  /** What packing computes: the id in the low 56 bits, and above it the priority or-ed over the CPU number. */
  lemma PackFields(id: TaskId, p: Priority, cpu: CpuId)
    ensures Pack(id, p, cpu) == Or(64 * PriorityBits(p), cpu % 256) * TWO_56 + id % TWO_56
  {
    ShiftFields(PriorityBits(p), cpu);
    OrThree(64 * PriorityBits(p), cpu % 256, id % TWO_56);
  }

  lemma OrThree(x: nat, c: nat, i: nat)
    requires i < TWO_56
    ensures Or(Or(x * TWO_56, c * TWO_56), i) == Or(x, c) * TWO_56 + i
  {
    OrBelow56(x, c, 0);
    OrBelow56(Or(x, c), 0, i);
    OrZero(Or(x, c));
  }

  lemma ReadFields(w: Waker, top: nat, six: nat, id: nat)
    requires six < 64 && id < TWO_56 && w == (64 * top + six) * TWO_56 + id
    ensures Unpack(w) == (id, PriorityFromBits(top), six)
  {
    assert w / TWO_56 == 64 * top + six && w / TWO_62 == top;
  }

  lemma ReadMixedFields(w: Waker, b: nat, c: nat, id: nat)
    requires id < TWO_56 && w == Or(64 * b, c) * TWO_56 + id
    ensures Unpack(w) == (id, PriorityFromBits(Or(b, c / 64)), c % 64)
  {
    OrPriority(b, c);
    ReadFields(w, Or(b, c / 64), c % 64, id);
  }

  /** The three fields a wake reads back. */
  lemma UnpackFields(id: TaskId, p: Priority, cpu: CpuId)
    ensures Unpack(Pack(id, p, cpu)) ==
            (id % TWO_56, PriorityFromBits(Or(PriorityBits(p), cpu % 256 / 64)), cpu % 256 % 64)
  {
    PackFields(id, p, cpu);
    ReadMixedFields(Pack(id, p, cpu), PriorityBits(p), cpu % 256, id % TWO_56);
  }

  /** The packed fields come back unchanged exactly for 56-bit ids and 6-bit CPU numbers. */
  lemma UnpackInvertsPack(id: TaskId, p: Priority, cpu: CpuId)
    ensures Unpack(Pack(id, p, cpu)) == (id, p, cpu) <==> id < ID_LIMIT && cpu < CPU_LIMIT
  {
    UnpackFields(id, p, cpu);
    FieldsExact(id, p, cpu);
  }

  lemma FieldsExact(id: nat, p: Priority, cpu: nat)
    ensures (id % TWO_56, PriorityFromBits(Or(PriorityBits(p), cpu % 256 / 64)), cpu % 256 % 64) == (id, p, cpu)
            <==> id < ID_LIMIT && cpu < CPU_LIMIT
  {
    if cpu < CPU_LIMIT {
      assert cpu % 256 == cpu && cpu / 64 == 0;
      OrZero(PriorityBits(p));
    }
  }
}
