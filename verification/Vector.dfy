/** The self-sizing vector of src/modules/base/loop/tinyara_loop.c. No capacity is
    stored: every grow and shrink recomputes it from the length. Sizes are counted in
    elements; a null data pointer is a buffer of no slots. */
module Vector {
  import opened ArtikTypes
  import opened AlignPower2

  /** What a vector is in memory: all the allocated slots, and the 16-bit length. */
  datatype Vec<T> = Vec(buffer: seq<T>, len: nat)

  ghost predicate Inv<T>(v: Vec<T>) {
    v.len <= USHRT_MAX && AlignShort(v.len) <= |v.buffer|
  }

  ghost function Contents<T>(v: Vec<T>): (items: seq<T>)
    requires Inv(v)
    ensures |items| == v.len <= |v.buffer|
  {
    AlignShortMonotone(v.len, v.len);
    v.buffer[..v.len]
  }

  // ---------------------------------------------------------------- memory steps

  function NewLen(len: nat, amount: nat): nat {
    (len + amount) % 0x1_0000
  }

  /** Slots held after `_vector_grow`; the 16-bit sum may wrap. */
  function GrownCapacity(capacity: nat, len: nat, amount: nat): nat
    requires len <= USHRT_MAX
  {
    var newLen := NewLen(len, amount);
    if AlignShort(newLen) != AlignShort(len) then AlignShort(newLen) else capacity
  }

  /** The slots that `_vector_append_n` clears lie inside the grown buffer. */
  predicate AppendInRange(capacity: nat, len: nat, n: nat)
    requires len <= USHRT_MAX
  {
    0 <= NewLen(len, n) - n && NewLen(len, n) <= GrownCapacity(capacity, len, n)
  }

  /** `realloc`: the common prefix survives, further slots are unspecified. */
  ghost predicate Reallocated<T>(b: seq<T>, capacity: nat, b': seq<T>) {
    && |b'| == capacity
    && forall k :: 0 <= k < |b| && k < capacity ==> b'[k] == b[k]
  }

  /** `_vector_append_n` followed by storing `xs` in the slots it returned. */
  ghost predicate AppendStep<T>(v: Vec<T>, xs: seq<T>, v': Vec<T>) {
    && v.len <= USHRT_MAX
    && AppendInRange(|v.buffer|, v.len, |xs|)
    && v'.len == NewLen(v.len, |xs|)
    && |v'.buffer| == GrownCapacity(|v.buffer|, v.len, |xs|)
    && (forall k :: 0 <= k < |v.buffer| && k < v'.len - |xs| ==> v'.buffer[k] == v.buffer[k])
    && (forall k :: v'.len - |xs| <= k < v'.len ==> v'.buffer[k] == xs[k - (v'.len - |xs|)])
  }

  /** The `memmove` of `_vector_del`: slot `k` takes the value of slot `k + 1`. */
  ghost predicate TailMoved<T>(b: seq<T>, i: nat, len: nat, b': seq<T>)
    requires i < len <= |b|
  {
    && |b'| == |b|
    && (forall k :: 0 <= k < |b| && !(i <= k < len - 1) ==> b'[k] == b[k])
    && (forall k :: i <= k < len - 1 ==> b'[k] == b[k + 1])
  }

  /** `_vector_shrink`; `ok` tells whether its reallocation, if it makes one, succeeds. */
  ghost predicate ShrinkStep<T>(b: seq<T>, len: nat, ok: bool, b': seq<T>)
    requires len < USHRT_MAX
  {
    if len == 0 then b' == []
    else if AlignUint(len + 1) == AlignShort(len) || !ok then b' == b
    else Reallocated(b, AlignShort(len), b')
  }

  /** `_vector_del` at a valid index. */
  ghost predicate DeleteStep<T(!new)>(v: Vec<T>, i: nat, ok: bool, v': Vec<T>) {
    && i < v.len <= USHRT_MAX
    && v.len <= |v.buffer|
    && v'.len == v.len - 1
    && exists moved :: TailMoved(v.buffer, i, v.len, moved) && ShrinkStep(moved, v'.len, ok, v'.buffer)
  }

  // ---------------------------------------------------------------- step lemmas

  /** Exactly when an append stays inside the buffer: when the 16-bit length does not wrap. */
  lemma AppendInRangeIff(capacity: nat, len: nat, n: nat)
    requires len <= USHRT_MAX && n <= USHRT_MAX && AlignShort(len) <= capacity
    ensures AppendInRange(capacity, len, n) <==> len + n <= USHRT_MAX
  {
    NewLenIs(len, n);
    if len + n <= USHRT_MAX {
      AlignShortMonotone(len, len + n);
    }
  }

  lemma NewLenIs(len: nat, n: nat)
    requires len <= USHRT_MAX && n <= USHRT_MAX
    ensures NewLen(len, n) == if len + n <= 0xFFFF then len + n else len + n - 0x1_0000
  {
  }

  lemma AppendKeepsInv<T>(v: Vec<T>, xs: seq<T>, v': Vec<T>)
    requires Inv(v) && |xs| <= USHRT_MAX && AppendStep(v, xs, v')
    ensures Inv(v') && Contents(v') == Contents(v) + xs
  {
    AppendInRangeIff(|v.buffer|, v.len, |xs|);
    NewLenIs(v.len, |xs|);
    assert v'.len == v.len + |xs|;
    AlignShortMonotone(v.len, v'.len);
    assert Inv(v');
    assert v'.buffer[..v'.len] == v.buffer[..v.len] + xs;
  }

  /** Conversely, the new length, capacity and contents are all that there is to a step. */
  lemma AppendStepFromContents<T>(v: Vec<T>, xs: seq<T>, v': Vec<T>)
    requires Inv(v) && Inv(v') && v.len + |xs| <= USHRT_MAX
    requires |v'.buffer| == GrownCapacity(|v.buffer|, v.len, |xs|)
    requires Contents(v') == Contents(v) + xs
    ensures AppendStep(v, xs, v')
  {
    AppendInRangeIff(|v.buffer|, v.len, |xs|);
    var items, n := v'.buffer[..v'.len], v.len;
    assert items == v.buffer[..n] + xs;
    forall k | 0 <= k < n
      ensures v'.buffer[k] == v.buffer[k]
    {
      assert v'.buffer[k] == items[k];
    }
    forall k | n <= k < v'.len
      ensures v'.buffer[k] == xs[k - n]
    {
      assert v'.buffer[k] == items[k];
    }
  }

  lemma ShrinkKeepsFront<T>(b: seq<T>, len: nat, ok: bool, b': seq<T>)
    requires len < USHRT_MAX && AlignShort(len + 1) <= |b| && ShrinkStep(b, len, ok, b')
    ensures len <= AlignShort(len) <= |b'| && len <= |b| && b'[..len] == b[..len]
  {
    AlignShortMonotone(len, len + 1);
  }

  lemma DeleteKeepsInv<T(!new)>(v: Vec<T>, i: nat, ok: bool, v': Vec<T>)
    requires Inv(v) && DeleteStep(v, i, ok, v')
    ensures Inv(v') && Contents(v') == Contents(v)[..i] + Contents(v)[i + 1..]
  {
    var moved :| TailMoved(v.buffer, i, v.len, moved) && ShrinkStep(moved, v'.len, ok, v'.buffer);
    ShrinkKeepsFront(moved, v'.len, ok, v'.buffer);
    assert moved[..v'.len] == v.buffer[..i] + v.buffer[i + 1..v.len];
  }

  // ---------------------------------------------------------------- whole runs

  /** A delete says whether the reallocation it may ask for succeeds. */
  datatype Op<T> = Append(xs: seq<T>) | Delete(i: nat, ok: bool)

  ghost predicate Step<T(!new)>(v: Vec<T>, op: Op<T>, v': Vec<T>) {
    match op
    case Append(xs) => |xs| <= USHRT_MAX && AppendStep(v, xs, v')
    case Delete(i, ok) => if i < v.len then DeleteStep(v, i, ok, v') else v' == v
  }

  ghost predicate Run<T(!new)>(states: seq<Vec<T>>, ops: seq<Op<T>>) {
    && |states| == |ops| + 1
    && states[0] == Vec([], 0)
    && forall k :: 0 <= k < |ops| ==> Step(states[k], ops[k], states[k + 1])
  }

  /** The same operations on a plain sequence. */
  function Plain<T>(ops: seq<Op<T>>): seq<T> {
    if ops == [] then []
    else
      var s := Plain(ops[..|ops| - 1]);
      match ops[|ops| - 1]
      case Append(xs) => s + xs
      case Delete(i, _) => if i < |s| then s[..i] + s[i + 1..] else s
  }

  /** Every run, whichever shrinking reallocations fail: the capacity invariant holds in
      every state and the contents are those of the plain sequence. */
  lemma {:induction false} RunRefinesPlain<T(!new)>(states: seq<Vec<T>>, ops: seq<Op<T>>, k: nat)
    requires Run(states, ops) && k <= |ops|
    ensures Inv(states[k]) && Contents(states[k]) == Plain(ops[..k])
  {
    if k == 0 {
      assert ops[..0] == [];
    } else {
      RunRefinesPlain(states, ops, k - 1);
      var v, op, v' := states[k - 1], ops[k - 1], states[k];
      assert Step(v, op, v');
      assert ops[..k][..k - 1] == ops[..k - 1];
      match op
      case Append(xs) =>
        AppendKeepsInv(v, xs, v');
      case Delete(i, ok) =>
        if i < v.len {
          DeleteKeepsInv(v, i, ok, v');
        }
    }
  }

  /** Exactly as many slots as the length asks for. */
  ghost predicate Tight<T>(v: Vec<T>) {
    v.len <= USHRT_MAX && |v.buffer| == AlignShort(v.len)
  }

  lemma AppendIsTight<T>(v: Vec<T>, xs: seq<T>, v': Vec<T>)
    requires Tight(v) && |xs| <= USHRT_MAX && AppendStep(v, xs, v')
    ensures Tight(v')
  {
  }

  /** A delete from such a vector leaves slots over exactly if it asks for a smaller buffer and that
      reallocation fails. */
  lemma DeleteIsTightIff<T(!new)>(v: Vec<T>, i: nat, ok: bool, v': Vec<T>)
    requires Tight(v) && DeleteStep(v, i, ok, v')
    ensures !Tight(v') <==> !ok && v'.len > 0 && AlignShort(v'.len) != AlignShort(v.len)
    ensures !Tight(v') ==> |v'.buffer| == |v.buffer|
  {
    var moved :| TailMoved(v.buffer, i, v.len, moved) && ShrinkStep(moved, v'.len, ok, v'.buffer);
    AlignShortMonotone(v'.len, v.len);
    AlignShortValue(v.len);
    if v'.len > 0 {
      AlignShortValue(v'.len);
    }
  }

  /** A run whose reallocations all succeed has exactly the aligned length of slots in every state. */
  lemma {:induction false} RunIsTight<T(!new)>(states: seq<Vec<T>>, ops: seq<Op<T>>, k: nat)
    requires Run(states, ops) && k <= |ops|
    requires forall j :: 0 <= j < k && ops[j].Delete? ==> ops[j].ok
    ensures Tight(states[k])
  {
    if k > 0 {
      RunIsTight(states, ops, k - 1);
      var v, op, v' := states[k - 1], ops[k - 1], states[k];
      assert Step(v, op, v');
      match op
      case Append(xs) => AppendIsTight(v, xs, v');
      case Delete(i, ok) =>
        if i < v.len {
          DeleteIsTightIff(v, i, ok, v');
        }
    }
  }

  /** Hence a run can be continued by an append exactly while the plain length fits 16 bits. */
  lemma RunExtendsIff<T(00, !new)>(states: seq<Vec<T>>, ops: seq<Op<T>>, xs: seq<T>)
    requires Run(states, ops) && |xs| <= USHRT_MAX
    ensures (exists v' :: Step(states[|ops|], Append(xs), v')) <==> |Plain(ops)| + |xs| <= USHRT_MAX
  {
    RunRefinesPlain(states, ops, |ops|);
    assert ops[..|ops|] == ops;
    var v := states[|ops|];
    AppendInRangeIff(|v.buffer|, v.len, |xs|);
    if v.len + |xs| <= USHRT_MAX {
      var v' := AppendSucceeds(v, xs);
      assert Step(v, Append(xs), v');
    }
  }

  lemma AppendSucceeds<T(00)>(v: Vec<T>, xs: seq<T>) returns (v': Vec<T>)
    requires Inv(v) && v.len + |xs| <= USHRT_MAX
    ensures AppendStep(v, xs, v')
  {
    AppendInRangeIff(|v.buffer|, v.len, |xs|);
    var capacity := GrownCapacity(|v.buffer|, v.len, |xs|);
    var items := Contents(v) + xs;
    var unset: T :| true;
    v' := Vec(items + seq(capacity - |items|, _ => unset), |items|);
  }

  /** Such a full vector is reachable: one append of 65535 elements, after which no single append
      stays inside the buffer. */
  lemma FullVectorIsReachable<T(00, !new)>(x: T) returns (states: seq<Vec<T>>, ops: seq<Op<T>>)
    ensures Run(states, ops) && |Plain(ops)| == USHRT_MAX
    ensures forall v' :: !Step(states[|ops|], Append([x]), v')
  {
    var xs: seq<T>, empty: Vec<T> := seq(USHRT_MAX, _ => x), Vec([], 0);
    var full := AppendSucceeds(empty, xs);
    states, ops := [empty, full], [Append(xs)];
    assert ops[..0] == [] && Plain(ops) == [] + xs;
    assert Step(states[0], ops[0], states[1]);
    RunExtendsIff(states, ops, [x]);
  }

  // ---------------------------------------------------------------- cost of growing

  /** `_vector_grow` by one element reallocates at this length. */
  predicate Grows(len: nat)
    requires len < USHRT_MAX
  {
    AlignShort(len + 1) != AlignShort(len)
  }

  /** Reallocations made by the first `n` single appends, and the elements they carry. */
  function Reallocations(n: nat): nat
    requires n <= USHRT_MAX
  {
    if n == 0 then 0
    else Reallocations(n - 1) + if Grows(n - 1) then 1 else 0
  }

  function Carried(n: nat): nat
    requires n <= USHRT_MAX
  {
    if n == 0 then 0
    else Carried(n - 1) + if Grows(n - 1) then n - 1 else 0
  }

  /** Growth happens exactly where the ceiling of the logarithm of the length steps. */
  lemma GrowsAtCeilSteps(m: nat)
    requires 1 <= m < USHRT_MAX
    ensures Grows(m) ==> m == Pow2(BitLength(m - 1)) && BitLength(m) == BitLength(m - 1) + 1
    ensures !Grows(m) ==> BitLength(m) == BitLength(m - 1)
  {
    GrowBoundary(m);
    CeilStep(m);
    Pow2Values();
    if IsPow2(m) {
      var j: nat :| m == Pow2(j);
      if j > 15 {
        Pow2Monotone(16, j);
      } else {
        Pow2Monotone(j, 15);
      }
    }
  }

  lemma {:induction false} GrowthCost(n: nat)
    requires 1 <= n <= USHRT_MAX
    ensures Reallocations(n) == 1 + BitLength(n - 1)
    ensures Carried(n) == Pow2(BitLength(n - 1)) - 1
  {
    if n == 1 {
      GrowBoundary(0);
      assert Reallocations(0) == 0 && Carried(0) == 0;
    } else {
      GrowthCost(n - 1);
      GrowsAtCeilSteps(n - 1);
      var k := BitLength(n - 2);
      assert Pow2(k + 1) == 2 * Pow2(k);
    }
  }

  /** The ceiling of the logarithm steps at the powers of two and only there. */
  lemma CeilStep(m: nat)
    requires m >= 1
    ensures IsPow2(m) ==> m == Pow2(BitLength(m - 1)) && BitLength(m) == BitLength(m - 1) + 1
    ensures !IsPow2(m) ==> BitLength(m) == BitLength(m - 1)
  {
    var k := BitLength(m - 1);
    BitLengthIsCeilLog2(m);
    if IsPow2(m) {
      var j: nat :| m == Pow2(j);
      if k < j {
        Pow2Monotone(k, j);
      }
      CeilBelow(m + 1, k);
      CeilBelow(m + 1, k + 1);
    } else {
      assert m != Pow2(k);
      CeilBelow(m + 1, k);
      BitLengthIsCeilLog2(m + 1);
      CeilBelow(m, BitLength(m));
    }
  }

  /** `n` appends to an empty vector: exactly one reallocation more than the ceiling of
      log2 n, and fewer than 2n elements carried over in all. */
  lemma AppendsAreAmortised(n: nat)
    requires 1 <= n <= USHRT_MAX
    ensures Reallocations(n) >= 1 && IsCeilLog2(n, Reallocations(n) - 1)
    ensures Carried(n) < 2 * n
  {
    GrowthCost(n);
    BitLengthIsCeilLog2(n);
    if n > 1 {
      BitLengthBound(n - 1);
    }
  }

  // ---------------------------------------------------------------- the object

  /** `struct _ptr_vector`, its buffer a real array so that every access is bounds-checked. */
  class PtrVector<T(0, !new)> {
    const zero: T
    var data: array<T>
    var len: nat

    ghost predicate Valid()
      reads this, data
    {
      Inv(View())
    }

    ghost function View(): Vec<T>
      reads this, data
    {
      Vec(data[..], len)
    }

    ghost function Items(): seq<T>
      requires Valid()
      reads this, data
    {
      Contents(View())
    }

    constructor (zero: T)
      ensures Valid() && fresh(data) && Items() == [] && View() == Vec([], 0)
      ensures this.zero == zero
    {
      this.zero := zero;
      data := new T[0];
      len := 0;
    }

    /** `realloc` on the data pointer. */
    method Realloc(capacity: nat)
      modifies this`data
      ensures fresh(data) && Reallocated(old(data[..]), capacity, data[..])
    {
      var grown := new T[capacity];
      for k := 0 to if capacity < data.Length then capacity else data.Length
        modifies grown
        invariant forall j :: 0 <= j < k ==> grown[j] == data[j]
      {
        grown[k] := data[k];
      }
      data := grown;
    }

    /** `_vector_grow`: reallocates exactly when the aligned length changes. The 16-bit length may
        wrap; then the buffer shrinks with it. */
    method Grow(amount: nat)
      requires Valid() && amount <= USHRT_MAX
      modifies this`data, this`len
      ensures Valid() && len == NewLen(old(len), amount)
      ensures if AlignShort(len) != AlignShort(old(len))
              then fresh(data) && Reallocated(old(data[..]), AlignShort(len), data[..])
              else data == old(data)
      ensures data.Length == GrownCapacity(old(data.Length), old(len), amount)
      ensures var kept := if old(len) <= len then old(len) else len;
        kept <= data.Length && data[..kept] == old(Items())[..kept]
    {
      AlignShortMonotone(len, len);
      AlignShortMonotone(NewLen(len, amount), NewLen(len, amount));
      var oldCap, newCap := AlignShort(len), AlignShort(NewLen(len, amount));
      if newCap != oldCap {
        Realloc(newCap);
      }
      len := NewLen(len, amount);
    }

    /** `_vector_append_n`: returns the index of the first of the slots to clear. Where the length
        has wrapped, that index lies before the buffer and the program has no defined behaviour;
        the model then makes none of the writes. */
    method AppendN(n: nat) returns (first: int)
      requires Valid() && n <= USHRT_MAX
      modifies this`data, this`len, data
      ensures Valid() && (data == old(data) || fresh(data))
      ensures len == NewLen(old(len), n) && first == len - n
      ensures data.Length == GrownCapacity(old(data.Length), old(len), n)
      ensures first >= 0 <==> old(len) + n <= USHRT_MAX
      ensures Items() == if first >= 0 then old(Items()) + seq(n, _ => zero) else old(Items())[..len]
    {
      ghost var items := Items();
      Grow(n);
      AlignShortMonotone(len, len);
      first := len - n;
      if first >= 0 {
        forall k | first <= k < len {
          data[k] := zero;
        }
        assert data[..len] == items + seq(n, _ => zero);
      }
    }

    /** `_ptr_vector_append`; it stays inside the buffer unless the vector holds 65535 elements. */
    method Append(x: T) returns (inRange: bool)
      requires Valid()
      modifies this`data, this`len, data
      ensures Valid() && (data == old(data) || fresh(data))
      ensures inRange <==> old(len) < USHRT_MAX
      ensures Items() == if inRange then old(Items()) + [x] else []
      ensures inRange ==> AppendStep(old(View()), [x], View())
    {
      ghost var before, items := View(), Items();
      var slot := AppendN(1);
      inRange := slot >= 0;
      if inRange {
        AlignShortMonotone(len, len);
        data[slot] := x;
        assert data[..len] == items + [x];
        AppendStepFromContents(before, [x], View());
      }
    }

    /** `_ptr_vector_get_no_check`. */
    method Get(i: nat) returns (x: T)
      requires Valid() && i < len
      ensures x == Items()[i]
    {
      AlignShortMonotone(len, len);
      x := data[i];
    }

    /** `_vector_shrink`, with the outcome of its reallocation given. */
    method Shrink(reallocOk: bool)
      requires len < USHRT_MAX
      modifies this`data
      ensures data == old(data) || fresh(data)
      ensures ShrinkStep(old(data[..]), len, reallocOk, data[..])
    {
      if len == 0 {
        data := new T[0];
        return;
      }
      var oldCap, newCap := AlignUint(len + 1), AlignShort(len);
      if newCap == oldCap || !reallocOk {
        return;
      }
      Realloc(newCap);
    }

    /** `_vector_del`. */
    method Del(i: nat, reallocOk: bool) returns (err: Error)
      requires Valid()
      modifies this`data, this`len, data
      ensures Valid() && (data == old(data) || fresh(data))
      ensures err == if i >= old(len) then E_INVALID_VALUE else S_OK
      ensures err == E_INVALID_VALUE ==> View() == old(View())
      ensures err == S_OK ==> DeleteStep(old(View()), i, reallocOk, View())
      ensures err == S_OK ==> Items() == old(Items())[..i] + old(Items())[i + 1..]
    {
      if i >= len {
        return E_INVALID_VALUE;
      }
      ghost var before := View();
      AlignShortMonotone(len, len);
      len := len - 1;
      forall k | i <= k < len {
        data[k] := data[k + 1];
      }
      ghost var moved := data[..];
      assert TailMoved(before.buffer, i, before.len, moved);
      Shrink(reallocOk);
      assert DeleteStep(before, i, reallocOk, View());
      DeleteKeepsInv(before, i, reallocOk, View());
      return S_OK;
    }
  }
}
