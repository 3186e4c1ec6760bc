/** The 64-bit layout of an ID: timestamp, datacenter, machine, sequence. */
module SnowflakePacking {
  import opened BitOps

  const SEQUENCE_BITS := 12
  const MACHINE_BITS := 5
  const DATACENTER_BITS := 5
  const TIMESTAMP_BITS := 41
  const MACHINE_SHIFT := SEQUENCE_BITS
  const DATACENTER_SHIFT := SEQUENCE_BITS + MACHINE_BITS
  const TIMESTAMP_SHIFT := SEQUENCE_BITS + MACHINE_BITS + DATACENTER_BITS

  const MAX_SEQUENCE := 4095
  const MAX_MACHINE_ID := 31
  const MAX_DATACENTER_ID := 31

  /** The (datacenter, machine) pair that the generator's constructor accepts. */
  datatype Node = Node(datacenter: int, machine: int) {
    predicate Valid() {
      0 <= datacenter <= MAX_DATACENTER_ID && 0 <= machine <= MAX_MACHINE_ID
    }
  }

  datatype Parts = Parts(timestamp: int, node: Node, sequence: int) {
    predicate Valid() {
      node.Valid() && 0 <= sequence <= MAX_SEQUENCE
    }

    /** Lexicographic order on (timestamp, sequence). */
    predicate Before(other: Parts) {
      timestamp < other.timestamp || (timestamp == other.timestamp && sequence < other.sequence)
    }
  }

  function Pack(p: Parts): int {
    BitOr(
      BitOr(
        BitOr(ShiftLeft(p.timestamp, TIMESTAMP_SHIFT), ShiftLeft(p.node.datacenter, DATACENTER_SHIFT)),
        ShiftLeft(p.node.machine, MACHINE_SHIFT)),
      p.sequence)
  }

  function Decompose(id: int): Parts {
    Parts(
      ShiftRight(id, TIMESTAMP_SHIFT),
      Node(
        BitAnd(ShiftRight(id, DATACENTER_SHIFT), MAX_DATACENTER_ID),
        BitAnd(ShiftRight(id, MACHINE_SHIFT), MAX_MACHINE_ID)),
      BitAnd(id, MAX_SEQUENCE))
  }

  ghost predicate Distinct(ids: seq<int>) {
    forall k, l | 0 <= k < l < |ids| :: ids[k] != ids[l]
  }

  lemma Powers()
    ensures Pow2(5) == 32 && Pow2(12) == 4096
  {
    assert Pow2(5) == 32;
    assert Pow2(10) == 32 * Pow2(5);
  }

  lemma ShiftByFive(x: int, k: nat)
    ensures ShiftLeft(x, k + 5) == 32 * ShiftLeft(x, k)
    ensures ShiftRight(x, k + 5) == ShiftRight(x, k) / 32
  {
    assert ShiftLeft(x, k + 2) == 4 * ShiftLeft(x, k);
    assert ShiftLeft(x, k + 4) == 4 * ShiftLeft(x, k + 2);
    assert ShiftRight(x, k + 2) == ShiftRight(x, k) / 4;
    assert ShiftRight(x, k + 4) == ShiftRight(x, k + 2) / 4;
  }

  /** The shifts of the layout as multiplications and floored divisions. */
  lemma Shifts(x: int)
    ensures ShiftLeft(x, 5) == x * 32 && ShiftLeft(x, 12) == x * 4096
    ensures ShiftLeft(x, 17) == x * 131072 && ShiftLeft(x, 22) == x * 4194304
    ensures ShiftRight(x, 12) == x / 4096 && ShiftRight(x, 17) == x / 131072 && ShiftRight(x, 22) == x / 4194304
  {
    ShiftByFive(x, 0);
    ShiftByFive(x, 5);
    assert ShiftLeft(x, 12) == 4 * ShiftLeft(x, 10);
    assert ShiftRight(x, 12) == ShiftRight(x, 10) / 4;
    ShiftByFive(x, 12);
    ShiftByFive(x, 17);
  }

  function PositionalSum(p: Parts): int {
    p.timestamp * 4194304 + p.node.datacenter * 131072 + p.node.machine * 4096 + p.sequence
  }

  function PositionalParts(id: int): Parts {
    Parts(id / 4194304, Node(id / 131072 % 32, id / 4096 % 32), id % 4096)
  }

  lemma PositionalRoundTrip(p: Parts)
    requires p.Valid()
    ensures PositionalParts(PositionalSum(p)) == p
  {
    var id := PositionalSum(p);
    var v := p.timestamp * 32 + p.node.datacenter;
    var u := v * 32 + p.node.machine;
    RemainderIs(id, 4096, u, p.sequence);
    RemainderIs(id, 131072, v, p.node.machine * 4096 + p.sequence);
    RemainderIs(id, 4194304, p.timestamp, id - p.timestamp * 4194304);
    RemainderIs(u, 32, v, p.node.machine);
    RemainderIs(v, 32, p.timestamp, p.node.datacenter);
  }

  lemma PartsSumUp(id: int)
    ensures PositionalParts(id).Valid()
    ensures PositionalSum(PositionalParts(id)) == id
  {
    var u, s := id / 4096, id % 4096;
    var v, m := u / 32, u % 32;
    var t, d := v / 32, v % 32;
    RemainderIs(id, 131072, v, m * 4096 + s);
    RemainderIs(id, 4194304, t, d * 131072 + m * 4096 + s);
  }

  /** The shift-or is the positional sum of the four fields, whatever the sign of the timestamp. */
  lemma PackIsPositionalSum(p: Parts)
    requires p.Valid()
    ensures Pack(p) == PositionalSum(p) ==
      ((p.timestamp * 32 + p.node.datacenter) * 32 + p.node.machine) * 4096 + p.sequence
  {
    hide BitOr, ShiftLeft;
    Powers();
    var high := ShiftLeft(p.timestamp, 5) + p.node.datacenter;
    var higher := ShiftLeft(high, 5) + p.node.machine;
    OrFields(p.timestamp, p.node.datacenter, 17);
    OrFields(high, p.node.machine, 12);
    OrIsSum(higher, p.sequence, 12);
    Shifts(p.timestamp);
    Shifts(high);
    Shifts(higher);
  }

  /** Two adjacent fields, the lower one five bits wide, placed above `shift` zero bits. */
  lemma OrFields(high: int, low: int, shift: nat)
    requires 0 <= low < 32
    ensures BitOr(ShiftLeft(high, shift + 5), ShiftLeft(low, shift)) == ShiftLeft(ShiftLeft(high, 5) + low, shift)
  {
    Powers();
    ShiftTwice(high, 5, shift);
    assert 5 + shift == shift + 5;
    OrShifted(ShiftLeft(high, 5), low, shift);
    OrIsSum(high, low, 5);
  }

  lemma DecomposeByDivision(id: int)
    ensures Decompose(id) == PositionalParts(id)
  {
    Powers();
    Shifts(id);
    AndMask(id / 131072, 5);
    AndMask(id / 4096, 5);
    AndMask(id, 12);
  }

  lemma DecomposeUndoesPack(p: Parts)
    requires p.Valid()
    ensures Decompose(Pack(p)) == p
  {
    PackIsPositionalSum(p);
    DecomposeByDivision(PositionalSum(p));
    PositionalRoundTrip(p);
  }

  lemma PackUndoesDecompose(id: int)
    ensures Decompose(id).Valid()
    ensures Pack(Decompose(id)) == id
  {
    DecomposeByDivision(id);
    var p := PositionalParts(id);
    PackIsPositionalSum(p);
    PartsSumUp(id);
  }

  /** No two field tuples share an ID; in particular two nodes never issue the same one. */
  lemma PackInjective(p: Parts, q: Parts)
    requires p.Valid() && q.Valid()
    ensures Pack(p) == Pack(q) <==> p == q
  {
    DecomposeUndoesPack(p);
    DecomposeUndoesPack(q);
  }

  /** An earlier timestamp gives a smaller ID across all nodes; on one node ID order is field order. */
  lemma PackOrder(p: Parts, q: Parts)
    requires p.Valid() && q.Valid()
    ensures p.timestamp < q.timestamp ==> Pack(p) < Pack(q)
    ensures p.node == q.node ==> (Pack(p) < Pack(q) <==> p.Before(q))
  {
    PackIsPositionalSum(p);
    PackIsPositionalSum(q);
  }

  /** An ID fits a signed 64-bit column exactly when its timestamp fits 41 bits. */
  lemma FitsSigned64(p: Parts)
    requires p.Valid()
    ensures 0 <= Pack(p) < 0x8000_0000_0000_0000 <==> 0 <= p.timestamp < 0x200_0000_0000
  {
    PackIsPositionalSum(p);
    Powers();
    assert Pow2(17) == 32 * Pow2(12);
    assert Pow2(22) == 32 * Pow2(17);
    assert Pow2(27) == 32 * Pow2(22);
    assert Pow2(32) == 32 * Pow2(27);
    assert Pow2(37) == 32 * Pow2(32);
    assert Pow2(41) == 16 * Pow2(37);
  }
}
