/** The interpreter's memory: a growable vector of signed cells and a cursor
    into it. Cells are created lazily, as zeros, when the cursor first reaches
    them; moving left from the first cell creates a new first cell.

    `Mem` is the value of a `Memory` and the functions on it specify the
    methods of the class. `Cell(m, k)` is the abstract view: the value `k`
    cells right of the cursor (left for negative `k`) of a tape that is zero
    wherever no cell exists yet. Every operation is characterised by what it
    does to that view. */
module Tape {

  /** A value `,` can read: one unsigned byte. */
  type byte = x: int | 0 <= x < 256

  datatype Mem = Mem(vec: seq<int>, ptr: nat)

  /** A `Memory` as `Default` makes it: no cells, cursor at 0. */
  const Fresh: Mem := Mem([], 0)

  /** The cell `k` places right of the cursor; 0 where no cell exists. */
  function Cell(m: Mem, k: int): int {
    var i := m.ptr + k;
    if 0 <= i < |m.vec| then m.vec[i] else 0
  }

  function Zeros(n: nat): (z: seq<int>)
    ensures |z| == n && forall i :: 0 <= i < n ==> z[i] == 0
  {
    seq(n, _ => 0)
  }

  /** `fill_to_ptr`: zeros appended until the cursor addresses an existing cell. */
  function Filled(m: Mem): (r: Mem)
    ensures r.ptr == m.ptr && r.ptr < |r.vec|
  {
    if m.ptr < |m.vec| then m else Mem(m.vec + Zeros(m.ptr + 1 - |m.vec|), m.ptr)
  }

  /** Filling grows the vector just enough for the cursor, keeps every existing
      cell, adds only zeros, and so leaves the view of the tape unchanged. */
  lemma FilledKeepsCells(m: Mem)
    ensures |Filled(m).vec| == if m.ptr < |m.vec| then |m.vec| else m.ptr + 1
    ensures Filled(m).vec[..|m.vec|] == m.vec
    ensures forall i :: |m.vec| <= i < |Filled(m).vec| ==> Filled(m).vec[i] == 0
    ensures forall k :: Cell(Filled(m), k) == Cell(m, k)
  {
  }

  /** What `load` returns: the current cell, 0 if it was never created. */
  function Current(m: Mem): (v: int)
    ensures v == Cell(m, 0)
    ensures m.ptr >= |m.vec| ==> v == 0
  {
    FilledKeepsCells(m);
    Filled(m).vec[m.ptr]
  }

  /** `inc`: the cursor moves one cell right; nothing is allocated. */
  function AfterInc(m: Mem): Mem {
    Mem(m.vec, m.ptr + 1)
  }

  /** After `inc` every cell is seen one place further left. */
  lemma IncShiftsView(m: Mem)
    ensures AfterInc(m).vec == m.vec
    ensures forall k :: Cell(AfterInc(m), k) == Cell(m, k + 1)
  {
  }

  /** `dec`: the cursor moves one cell left; at the first cell a zero cell is
      inserted in front of it instead, shifting every cell one place right. */
  function AfterDec(m: Mem): Mem {
    if m.ptr > 0 then Mem(m.vec, m.ptr - 1) else Mem([0] + m.vec, 0)
  }

  /** After `dec` every cell is seen one place further right, whether the
      cursor moved or a new first cell was inserted. */
  lemma DecShiftsView(m: Mem)
    ensures forall k :: Cell(AfterDec(m), k) == Cell(m, k - 1)
  {
  }

  /** The current cell, after filling, replaced by `v`. */
  function WithCurrent(m: Mem, v: int): Mem {
    var f := Filled(m);
    Mem(f.vec[f.ptr := v], f.ptr)
  }

  /** Replacing the current cell changes that cell of the view and no other. */
  lemma WithCurrentView(m: Mem, v: int)
    ensures WithCurrent(m, v).ptr == m.ptr
    ensures forall k :: Cell(WithCurrent(m, v), k) == if k == 0 then v else Cell(m, k)
  {
    FilledKeepsCells(m);
  }

  /** `plus`: the current cell grows by one; there is no wrap at 256. */
  function AfterPlus(m: Mem): Mem {
    WithCurrent(m, Current(m) + 1)
  }

  /** `minus`: the current cell shrinks by one and may become negative. */
  function AfterMinus(m: Mem): Mem {
    WithCurrent(m, Current(m) - 1)
  }

  /** `store`: the current cell becomes the byte `b`. */
  function AfterStore(m: Mem, b: byte): Mem {
    WithCurrent(m, b)
  }

  /** `plus` adds exactly one to the current cell and changes no other cell. */
  lemma PlusView(m: Mem)
    ensures AfterPlus(m).ptr == m.ptr
    ensures forall k :: Cell(AfterPlus(m), k) == if k == 0 then Cell(m, 0) + 1 else Cell(m, k)
  {
    WithCurrentView(m, Current(m) + 1);
  }

  /** `minus` takes exactly one from the current cell and changes no other cell. */
  lemma MinusView(m: Mem)
    ensures AfterMinus(m).ptr == m.ptr
    ensures forall k :: Cell(AfterMinus(m), k) == if k == 0 then Cell(m, 0) - 1 else Cell(m, k)
  {
    WithCurrentView(m, Current(m) - 1);
  }

  /** `store` leaves the byte in the current cell and changes no other cell. */
  lemma StoreView(m: Mem, b: byte)
    ensures AfterStore(m, b).ptr == m.ptr && 0 <= Current(AfterStore(m, b)) < 256
    ensures forall k :: Cell(AfterStore(m, b), k) == if k == 0 then b as int else Cell(m, k)
  {
    WithCurrentView(m, b);
  }

  /** `minus` undoes `plus` exactly, up to the cells `plus` created. */
  lemma PlusThenMinus(m: Mem)
    ensures AfterMinus(AfterPlus(m)) == Filled(m)
  {
    FilledKeepsCells(m);
    var f := Filled(m);
    assert AfterPlus(m).vec == f.vec[m.ptr := f.vec[m.ptr] + 1];
    assert AfterMinus(AfterPlus(m)).vec == f.vec;
  }

  /** Moving left and back right returns to the same view of the tape; when
      the left move started on the first cell, the vector has a new zero in
      front and the cursor is one index further right than before. */
  lemma DecThenInc(m: Mem)
    ensures forall k :: Cell(AfterInc(AfterDec(m)), k) == Cell(m, k)
    ensures m.ptr > 0 ==> AfterInc(AfterDec(m)) == m
    ensures m.ptr == 0 ==> AfterInc(AfterDec(m)) == Mem([0] + m.vec, 1)
  {
    DecShiftsView(m);
    IncShiftsView(AfterDec(m));
  }

  /** Loading never changes the view, and a cell read twice reads the same. */
  lemma LoadIsIdempotent(m: Mem)
    ensures Filled(Filled(m)) == Filled(m)
    ensures Current(Filled(m)) == Current(m)
  {
  }

  /** A `Memory` object: the vector and the cursor that the source updates in place. */
  class Memory {
    var vec: seq<int>
    var ptr: nat

    /** `Memory::default()`. */
    constructor ()
      ensures vec == [] && ptr == 0
    {
      vec := [];
      ptr := 0;
    }

    function Model(): Mem
      reads this
    {
      Mem(vec, ptr)
    }

    method FillToPtr()
      modifies this
      ensures ptr == old(ptr) && ptr < |vec|
      ensures |vec| == if old(ptr) < |old(vec)| then |old(vec)| else ptr + 1
      ensures vec[..|old(vec)|] == old(vec)
      ensures forall i :: |old(vec)| <= i < |vec| ==> vec[i] == 0
      ensures Model() == Filled(old(Model()))
    {
      while ptr >= |vec|
        invariant ptr == old(ptr)
        invariant |old(vec)| <= |vec| <= (if ptr < |old(vec)| then |old(vec)| else ptr + 1)
        invariant vec[..|old(vec)|] == old(vec)
        invariant forall i :: |old(vec)| <= i < |vec| ==> vec[i] == 0
        decreases ptr + 1 - |vec|
      {
        vec := vec + [0];
      }
      assert vec == Filled(old(Model())).vec;
    }

    method Inc()
      modifies this
      ensures vec == old(vec) && ptr == old(ptr) + 1
      ensures Model() == AfterInc(old(Model()))
    {
      ptr := ptr + 1;
    }

    method Dec()
      modifies this
      ensures old(ptr) > 0 ==> vec == old(vec) && ptr == old(ptr) - 1
      ensures old(ptr) == 0 ==> vec == [0] + old(vec) && ptr == 0
      ensures Model() == AfterDec(old(Model()))
    {
      if ptr > 0 {
        ptr := ptr - 1;
      } else {
        vec := [0] + vec;
        ptr := 0;
      }
    }

    method Plus()
      modifies this
      ensures Model() == AfterPlus(old(Model()))
      ensures ptr == old(ptr) && ptr < |vec|
      ensures vec[ptr] == old(Current(Model())) + 1
      ensures forall i :: 0 <= i < |vec| && i != ptr ==> vec[i] == Filled(old(Model())).vec[i]
    {
      FillToPtr();
      vec := vec[ptr := vec[ptr] + 1];
    }

    method Minus()
      modifies this
      ensures Model() == AfterMinus(old(Model()))
      ensures ptr == old(ptr) && ptr < |vec|
      ensures vec[ptr] == old(Current(Model())) - 1
      ensures forall i :: 0 <= i < |vec| && i != ptr ==> vec[i] == Filled(old(Model())).vec[i]
    {
      FillToPtr();
      vec := vec[ptr := vec[ptr] - 1];
    }

    method Store(b: byte)
      modifies this
      ensures Model() == AfterStore(old(Model()), b)
      ensures ptr == old(ptr) && ptr < |vec|
      ensures vec[ptr] == b as int
      ensures forall i :: 0 <= i < |vec| && i != ptr ==> vec[i] == Filled(old(Model())).vec[i]
    {
      FillToPtr();
      vec := vec[ptr := b as int];
    }

    method Load() returns (v: int)
      modifies this
      ensures Model() == Filled(old(Model()))
      ensures v == vec[ptr] && v == old(Cell(Model(), 0))
    {
      FillToPtr();
      v := vec[ptr];
    }
  }
}
