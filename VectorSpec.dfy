/*
 * Value-level model of the hand-written dynamic array `vector<T>`
 * (YuriyKuznetsov_vector.cpp).
 *
 * A container is seen as the sequence of its live elements (the prefix
 * [0, arraySize) of its buffer) together with its capacity.  Each operation
 * of the container is a function from the state before to the state after
 * (or to the error it throws), and the lemmas below state what the
 * container promises about them.  The class in DynamicArray.dfy is proved
 * against these functions.
 */
module VectorSpec {

  /** A raw `T*` argument: `nullptr`, or the address `pArray + k` of the buffer it is compared with. */
  datatype Pos = Null | Off(k: int)

  /** What the container throws.  The first three are `std::out_of_range`
      with different messages, the last is `ErrorMemoryAlloc`. */
  datatype Error =
    | InvalidRange     // range constructor: a null pointer, or begin == end
    | InvalidPointer   // insert / erase by pointer: null, end(), or no match
    | OutOfRange       // erase by index: index not below size
    | OutOfMemory      // malloc returned nullptr

  datatype Result<R> = Ok(value: R) | Err(error: Error)

  datatype Outcome = Pass | Fail(error: Error)

  /** The observable state: the live elements, in order, and `arrayCapacity`. */
  datatype Vec<T> = Vec(elems: seq<T>, cap: nat)
  {
    /** The class invariant 0 <= size <= capacity. */
    predicate Valid() { |elems| <= cap }
  }

  /** The state after an operation that returns a pointer, and that pointer. */
  datatype Placed<T> = Placed(after: Vec<T>, at: Pos)

  /** `pArray + k`: a buffer of capacity 0 is `nullptr`, so every address in it is null. */
  function Addr(cap: nat, k: int): Pos
  {
    if cap == 0 then Null else Off(k)
  }

  /** begin() */
  function Begin<T>(v: Vec<T>): Pos { Addr(v.cap, 0) }

  /** end() */
  function End<T>(v: Vec<T>): Pos { Addr(v.cap, |v.elems|) }

  /** `n` default-constructed elements (`init` stands for `T{}`). */
  function Fill<T>(n: nat, init: T): (r: seq<T>)
    ensures |r| == n
    ensures forall i :: 0 <= i < n ==> r[i] == init
  {
    seq(n, _ => init)
  }

  /** The state left behind by an operation: its result, or the unchanged state when it failed. */
  function After<T>(r: Result<Vec<T>>, v: Vec<T>): Vec<T>
  {
    if r.Ok? then r.value else v
  }

  function AfterPlaced<T>(r: Result<Placed<T>>, v: Vec<T>): Vec<T>
  {
    if r.Ok? then r.value.after else v
  }

  /** The state `destroyArray` and a failed copy assignment leave: no buffer at all. */
  function Emptied<T>(): Vec<T> { Vec([], 0) }

  // ---------------------------------------------------------------- construction

  /** vector(size_t size): `n` default elements, capacity exactly `n`. */
  function Sized<T>(n: nat, init: T): Vec<T>
  {
    Vec(Fill(n, init), n)
  }

  /** vector(std::initializer_list<T>): the list, capacity its length. */
  function FromList<T>(il: seq<T>): Vec<T>
  {
    Vec(il, |il|)
  }

  /** vector(T *begin, T *end) over the memory `mem` the two pointers address. */
  function FromRange<T>(mem: seq<T>, first: Pos, last: Pos, oom: bool): Result<Vec<T>>
    requires first.Off? && last.Off? ==> 0 <= first.k <= last.k <= |mem|
  {
    if first == Null || last == Null then Err(InvalidRange)
    else if first == last then Err(InvalidRange)
    else if oom then Err(OutOfMemory)
    else Ok(Vec(mem[first.k..last.k], last.k - first.k))
  }

  /** vector(const vector &): nothing is allocated for a source of capacity 0. */
  function Copy<T>(rhs: Vec<T>, oom: bool): Result<Vec<T>>
  {
    if rhs.cap == 0 then Ok(rhs)
    else if oom then Err(OutOfMemory)
    else Ok(rhs)
  }

  /** operator=(const vector &) on a distinct receiver.  It always calls malloc,
      and on failure the receiver is left `Emptied()`. */
  function CopyAssign<T>(rhs: Vec<T>, oom: bool): Result<Vec<T>>
  {
    if oom then Err(OutOfMemory) else Ok(rhs)
  }

  // ---------------------------------------------------------------- growth

  /** reserve(new_cap) */
  function Reserve<T>(v: Vec<T>, n: nat, oom: bool): Result<Vec<T>>
  {
    if n <= v.cap then Ok(v)
    else if oom then Err(OutOfMemory)
    else Ok(Vec(v.elems, n))
  }

  /** The capacity push_back and emplace_back grow a full container to.  The
      source asks for `capacity * 2`, which is 0 for an empty buffer; the
      model starts at 1 (see AsWritten.dfy). */
  function GrowCapacity(cap: nat): (r: nat)
    ensures r > cap
    ensures cap > 0 ==> r == cap * 2
  {
    if cap == 0 then 1 else cap * 2
  }

  /** push_back(value) and emplace_back(args...) */
  function PushBack<T>(v: Vec<T>, x: T, oom: bool): Result<Vec<T>>
  {
    if |v.elems| == v.cap then
      match Reserve(v, GrowCapacity(v.cap), oom)
      case Ok(w) => Ok(Vec(w.elems + [x], w.cap))
      case Err(e) => Err(e)
    else
      Ok(Vec(v.elems + [x], v.cap))
  }

  /** The capacity push_front reallocates to, with the source's arithmetic
      (unsigned, so `/` is plain division). */
  function FrontCapacity(size: nat, cap: nat): nat
  {
    if cap > 0 then cap + cap * (size / cap) else 1
  }

  /** push_front(value): always reallocates. */
  function PushFront<T>(v: Vec<T>, x: T, oom: bool): Result<Vec<T>>
  {
    if oom then Err(OutOfMemory)
    else Ok(Vec([x] + v.elems, FrontCapacity(|v.elems|, v.cap)))
  }

  // ---------------------------------------------------------------- resize

  /** resize(count); `init` stands for `T{}`. */
  function Resize<T>(v: Vec<T>, count: nat, init: T, oom: bool): Result<Vec<T>>
  {
    if count == |v.elems| then Ok(v)
    else if count < |v.elems| then Ok(Vec(v.elems[..count], v.cap))
    else if count <= v.cap then Ok(Vec(v.elems + Fill(count - |v.elems|, init), v.cap))
    else
      match Reserve(v, count, oom)
      case Ok(w) => Ok(Vec(w.elems + Fill(count - |v.elems|, init), w.cap))
      case Err(e) => Err(e)
  }

  // ---------------------------------------------------------------- insert / erase

  /** insert(pos, value).  At end() it is push_back and returns the new end();
      at begin() it is push_front; at an interior element it grows by one with
      resize, shifts the tail right and returns the position. */
  function Insert<T>(v: Vec<T>, pos: Pos, x: T, oom: bool): Result<Placed<T>>
  {
    if pos == Null then Err(InvalidPointer)
    else if pos == End(v) then
      match PushBack(v, x, oom)
      case Ok(w) => Ok(Placed(w, End(w)))
      case Err(e) => Err(e)
    else if pos == Begin(v) then
      match PushFront(v, x, oom)
      case Ok(w) => Ok(Placed(w, Begin(w)))
      case Err(e) => Err(e)
    else if v.cap > 0 && 1 <= pos.k < |v.elems| then
      // the slot resize adds is overwritten by the shift, so its value is immaterial
      match Resize(v, |v.elems| + 1, x, oom)
      case Ok(w) => Ok(Placed(Vec(v.elems[..pos.k] + [x] + v.elems[pos.k..], w.cap), pos))
      case Err(e) => Err(e)
    else Err(InvalidPointer)
  }

  /** erase(size_t pos) */
  function EraseAt<T>(v: Vec<T>, i: nat): Result<Placed<T>>
  {
    if i >= |v.elems| then Err(OutOfRange)
    else Ok(Placed(Vec(v.elems[..i] + v.elems[i + 1..], v.cap), Addr(v.cap, i)))
  }

  /** erase(T *pos) */
  function ErasePtr<T>(v: Vec<T>, pos: Pos): Result<Placed<T>>
  {
    if pos == Null || pos == End(v) then Err(InvalidPointer)
    else if v.cap > 0 && 0 <= pos.k < |v.elems| then
      Ok(Placed(Vec(v.elems[..pos.k] + v.elems[pos.k + 1..], v.cap), pos))
    else Err(InvalidPointer)
  }

  /** erase(T *begin, T *end): `end` must be found at an index after `begin`'s, at most size. */
  function EraseRange<T>(v: Vec<T>, first: Pos, last: Pos): Result<Placed<T>>
  {
    if first == Null || last == Null || first == last then Err(InvalidPointer)
    else if v.cap > 0 && 0 <= first.k < last.k <= |v.elems| then
      Ok(Placed(Vec(v.elems[..first.k] + v.elems[last.k..], v.cap), first))
    else Err(InvalidPointer)
  }

  // ---------------------------------------------------------------- lemmas

  /** push_front's formula is the regular rule: 1 for no buffer, double a full
      buffer, keep a buffer with room; so there is always room for one more. */
  lemma FrontCapacityRule(size: nat, cap: nat)
    requires size <= cap
    ensures FrontCapacity(size, cap) == if cap == 0 then 1 else if size == cap then 2 * cap else cap
    ensures FrontCapacity(size, cap) >= size + 1
  {
    if cap > 0 {
      if size < cap {
        assert size / cap == 0;
      } else {
        assert size / cap == 1;
      }
    }
  }

  /** Without an allocation failure push_back appends and keeps the invariant;
      it only reallocates when full, and then to more than the old capacity. */
  lemma PushBackAppends<T>(v: Vec<T>, x: T)
    requires v.Valid()
    ensures PushBack(v, x, false).Ok?
    ensures var w := PushBack(v, x, false).value;
      w.Valid() && w.elems == v.elems + [x] &&
      (|v.elems| < v.cap ==> w.cap == v.cap) &&
      (|v.elems| == v.cap ==> w.cap == GrowCapacity(v.cap) && w.cap > v.cap)
  {
  }

  /** push_back fails only by running out of memory, and only when it must reallocate. */
  lemma PushBackFailsIff<T>(v: Vec<T>, x: T, oom: bool)
    requires v.Valid()
    ensures PushBack(v, x, oom).Err? <==> oom && |v.elems| == v.cap
    ensures PushBack(v, x, oom).Err? ==> PushBack(v, x, oom).error == OutOfMemory
  {
  }

  /** push_front prepends, and its new capacity always fits the new element. */
  lemma PushFrontPrepends<T>(v: Vec<T>, x: T)
    requires v.Valid()
    ensures PushFront(v, x, false).Ok?
    ensures var w := PushFront(v, x, false).value;
      w.Valid() && w.elems == [x] + v.elems && w.cap >= v.cap
  {
    FrontCapacityRule(|v.elems|, v.cap);
  }

  /** reserve never shrinks the capacity and never touches the elements; it
      fails exactly when it must allocate and the allocation fails. */
  lemma ReserveKeepsElements<T>(v: Vec<T>, n: nat, oom: bool)
    ensures Reserve(v, n, oom).Err? <==> n > v.cap && oom
    ensures Reserve(v, n, oom).Ok? ==>
      Reserve(v, n, oom).value.elems == v.elems &&
      Reserve(v, n, oom).value.cap == (if n <= v.cap then v.cap else n)
  {
  }

  /** A successful resize leaves exactly `count` elements: the old prefix,
      then default values; capacity never shrinks and always holds them. */
  lemma ResizeSetsSize<T>(v: Vec<T>, count: nat, init: T, oom: bool)
    requires v.Valid()
    ensures Resize(v, count, init, oom).Err? <==> count > v.cap && oom
    ensures Resize(v, count, init, oom).Ok? ==>
      var w := Resize(v, count, init, oom).value;
      w.Valid() && |w.elems| == count && w.cap >= v.cap &&
      (count > v.cap ==> w.cap == count) &&
      (count <= |v.elems| ==> w.elems == v.elems[..count]) &&
      (count > |v.elems| ==> w.elems[..|v.elems|] == v.elems &&
                             forall i :: |v.elems| <= i < count ==> w.elems[i] == init)
  {
    var r := Resize(v, count, init, oom);
    if r.Ok? && count > |v.elems| {
      assert r.value.elems == v.elems + Fill(count - |v.elems|, init);
      assert r.value.elems[..|v.elems|] == v.elems;
    }
  }

  /** Growing by one, as insert does, appends the filler and reallocates to
      exactly size + 1 only when the buffer is full. */
  lemma ResizeByOne<T>(v: Vec<T>, x: T, oom: bool)
    requires v.Valid()
    ensures Resize(v, |v.elems| + 1, x, oom) ==
      if |v.elems| < v.cap then Ok(Vec(v.elems + [x], v.cap))
      else if oom then Err(OutOfMemory)
      else Ok(Vec(v.elems + [x], |v.elems| + 1))
  {
    assert Fill(1, x) == [x];
  }

  /** Shrinking and then growing back does not recover the truncated values:
      the regrown slots hold default values. */
  lemma ResizeShrinkThenGrow<T>(v: Vec<T>, k: nat, init: T)
    requires v.Valid() && k <= |v.elems|
    ensures Resize(v, k, init, false).Ok?
    ensures var w := Resize(v, k, init, false).value;
      Resize(w, |v.elems|, init, false).Ok? &&
      Resize(w, |v.elems|, init, false).value == Vec(v.elems[..k] + Fill(|v.elems| - k, init), v.cap)
  {
    var w := Resize(v, k, init, false).value;
    assert w.elems == v.elems[..k] && w.cap == v.cap;
    if k == |v.elems| {
      assert v.elems[..k] + Fill(0, init) == v.elems;
    }
  }

  /** insert at any position 0..size of a container with a buffer splices the
      value in at that index, and returns that position, except at end(),
      where it returns the new end(). */
  lemma InsertSplices<T>(v: Vec<T>, i: int, x: T)
    requires v.Valid() && v.cap > 0 && 0 <= i <= |v.elems|
    ensures Insert(v, Off(i), x, false).Ok?
    ensures var w := Insert(v, Off(i), x, false).value.after;
      w.Valid() && w.elems == v.elems[..i] + [x] + v.elems[i..]
    ensures Insert(v, Off(i), x, false).value.at ==
      (if i == |v.elems| then Off(|v.elems| + 1) else Off(i))
  {
    if i == |v.elems| {
      PushBackAppends(v, x);
      assert v.elems[..i] == v.elems && v.elems[i..] == [];
    } else if i == 0 {
      PushFrontPrepends(v, x);
      assert v.elems[..i] == [] && v.elems[i..] == v.elems;
    } else {
      ResizeSetsSize(v, |v.elems| + 1, x, false);
    }
  }

  /** insert fails exactly on a pointer that is not the address of a position
      0..size of the buffer (so always when there is no buffer), with
      InvalidPointer, or when it must allocate and cannot, with OutOfMemory:
      push_front at begin() always allocates, push_back at end() and resize at
      an interior position only when the buffer is full. */
  lemma InsertFailsIff<T>(v: Vec<T>, pos: Pos, x: T, oom: bool)
    requires v.Valid()
    ensures Insert(v, pos, x, oom).Err? <==>
      !(v.cap > 0 && pos.Off? && 0 <= pos.k <= |v.elems|) ||
      (oom && (|v.elems| == v.cap || (pos.k == 0 && |v.elems| > 0)))
    ensures Insert(v, pos, x, oom).Err? ==>
      Insert(v, pos, x, oom).error ==
        (if v.cap > 0 && pos.Off? && 0 <= pos.k <= |v.elems| then OutOfMemory else InvalidPointer)
  {
    if v.cap > 0 && pos.Off? && 0 <= pos.k <= |v.elems| && !oom {
      InsertSplices(v, pos.k, x);
    }
  }

  /** Inserting at index i and then erasing index i restores the elements. */
  lemma InsertThenEraseRestores<T>(v: Vec<T>, i: nat, x: T)
    requires v.Valid() && v.cap > 0 && i <= |v.elems|
    ensures Insert(v, Off(i), x, false).Ok?
    ensures EraseAt(Insert(v, Off(i), x, false).value.after, i).Ok?
    ensures EraseAt(Insert(v, Off(i), x, false).value.after, i).value.after.elems == v.elems
  {
    InsertSplices(v, i, x);
    var w := Insert(v, Off(i), x, false).value.after;
    assert w.elems[..i] == v.elems[..i];
    assert w.elems[i + 1..] == v.elems[i..];
    assert v.elems[..i] + v.elems[i..] == v.elems;
  }

  /** Erasing index i and inserting the erased value back at i restores the elements. */
  lemma EraseThenInsertRestores<T>(v: Vec<T>, i: nat)
    requires v.Valid() && i < |v.elems|
    ensures EraseAt(v, i).Ok?
    ensures var w := EraseAt(v, i).value.after;
      Insert(w, Off(i), v.elems[i], false).Ok? &&
      Insert(w, Off(i), v.elems[i], false).value.after.elems == v.elems
  {
    var w := EraseAt(v, i).value.after;
    assert w.Valid() && w.cap > 0 && i <= |w.elems|;
    InsertSplices(w, i, v.elems[i]);
    assert w.elems[..i] == v.elems[..i];
    assert w.elems[i..] == v.elems[i + 1..];
    assert v.elems[..i] + [v.elems[i]] + v.elems[i + 1..] == v.elems;
  }

  /** erase(i) fails exactly for an index not below size, and otherwise
      removes that one element and keeps the capacity. */
  lemma EraseAtRemovesOne<T>(v: Vec<T>, i: nat)
    requires v.Valid()
    ensures EraseAt(v, i).Err? <==> i >= |v.elems|
    ensures EraseAt(v, i).Ok? ==>
      var w := EraseAt(v, i).value.after;
      w.Valid() && w.cap == v.cap && |w.elems| == |v.elems| - 1 &&
      (forall j :: 0 <= j < i ==> w.elems[j] == v.elems[j]) &&
      (forall j :: i <= j < |w.elems| ==> w.elems[j] == v.elems[j + 1])
  {
  }

  /** erase(T*) on the address of element i is erase(i); on anything else it fails. */
  lemma ErasePtrIsEraseAt<T>(v: Vec<T>, pos: Pos)
    requires v.Valid()
    ensures ErasePtr(v, pos).Ok? <==> v.cap > 0 && pos.Off? && 0 <= pos.k < |v.elems|
    ensures ErasePtr(v, pos).Ok? ==>
      EraseAt(v, pos.k).Ok? && ErasePtr(v, pos).value == EraseAt(v, pos.k).value
  {
  }

  /** erase(b, e) succeeds exactly on the addresses of indices 0 <= bi < ei <= size,
      removes exactly ei - bi elements and keeps the rest in their order. */
  lemma EraseRangeRemovesSpan<T>(v: Vec<T>, first: Pos, last: Pos)
    requires v.Valid()
    ensures EraseRange(v, first, last).Ok? <==>
      v.cap > 0 && first.Off? && last.Off? && 0 <= first.k < last.k <= |v.elems|
    ensures EraseRange(v, first, last).Ok? ==>
      var w := EraseRange(v, first, last).value.after;
      w.Valid() && w.cap == v.cap &&
      |w.elems| == |v.elems| - (last.k - first.k) &&
      w.elems == v.elems[..first.k] + v.elems[last.k..] &&
      multiset(w.elems) + multiset(v.elems[first.k..last.k]) == multiset(v.elems)
  {
    if EraseRange(v, first, last).Ok? {
      var b, e := first.k, last.k;
      assert v.elems == v.elems[..b] + v.elems[b..e] + v.elems[e..];
    }
  }

  /** A range of one element is erase by index. */
  lemma EraseRangeOfOneIsEraseAt<T>(v: Vec<T>, i: nat)
    requires v.Valid() && v.cap > 0 && i < |v.elems|
    ensures EraseRange(v, Off(i), Off(i + 1)).Ok? && EraseAt(v, i).Ok?
    ensures EraseRange(v, Off(i), Off(i + 1)).value == EraseAt(v, i).value
  {
  }

  /** The range constructor copies exactly the addressed elements, capacity == size. */
  lemma FromRangeCopies<T>(mem: seq<T>, first: Pos, last: Pos, oom: bool)
    requires first.Off? && last.Off? ==> 0 <= first.k <= last.k <= |mem|
    ensures FromRange(mem, first, last, oom).Ok? <==> first.Off? && last.Off? && first.k < last.k && !oom
    ensures FromRange(mem, first, last, oom).Ok? ==>
      var w := FromRange(mem, first, last, oom).value;
      w.Valid() && |w.elems| == w.cap == last.k - first.k &&
      forall i :: 0 <= i < |w.elems| ==> w.elems[i] == mem[first.k + i]
  {
  }

  // ---------------------------------------------------------------- every operation keeps the invariant

  /** One call on the container, with the arguments that decide its effect. */
  datatype Op<T> =
    | ReserveOp(n: nat, oom: bool)
    | PushBackOp(x: T, oom: bool)
    | PushFrontOp(x: T, oom: bool)
    | InsertOp(pos: Pos, x: T, oom: bool)
    | EraseAtOp(i: nat)
    | ErasePtrOp(pos: Pos)
    | EraseRangeOp(first: Pos, last: Pos)
    | ResizeOp(count: nat, init: T, oom: bool)
    | AssignOp(rhs: Vec<T>, oom: bool)
    | DestroyOp

  function Apply<T>(v: Vec<T>, op: Op<T>): Vec<T>
  {
    match op
    case ReserveOp(n, oom) => After(Reserve(v, n, oom), v)
    case PushBackOp(x, oom) => After(PushBack(v, x, oom), v)
    case PushFrontOp(x, oom) => After(PushFront(v, x, oom), v)
    case InsertOp(pos, x, oom) => AfterPlaced(Insert(v, pos, x, oom), v)
    case EraseAtOp(i) => AfterPlaced(EraseAt(v, i), v)
    case ErasePtrOp(pos) => AfterPlaced(ErasePtr(v, pos), v)
    case EraseRangeOp(first, last) => AfterPlaced(EraseRange(v, first, last), v)
    case ResizeOp(count, init, oom) => After(Resize(v, count, init, oom), v)
    case AssignOp(rhs, oom) => After(CopyAssign(rhs, oom), Emptied())
    case DestroyOp => Emptied()
  }

  function Run<T>(v: Vec<T>, ops: seq<Op<T>>): Vec<T>
    decreases |ops|
  {
    if ops == [] then v else Run(Apply(v, ops[0]), ops[1..])
  }

  /** Assignments only copy from containers that are themselves valid. */
  predicate ValidSources<T>(ops: seq<Op<T>>)
  {
    forall i :: 0 <= i < |ops| && ops[i].AssignOp? ==> ops[i].rhs.Valid()
  }

  /** Every single operation, failed or not, keeps 0 <= size <= capacity. */
  lemma ApplyKeepsValid<T>(v: Vec<T>, op: Op<T>)
    requires v.Valid()
    requires op.AssignOp? ==> op.rhs.Valid()
    ensures Apply(v, op).Valid()
  {
    match op
    case PushFrontOp(x, oom) =>
      FrontCapacityRule(|v.elems|, v.cap);
    case InsertOp(pos, x, oom) =>
      FrontCapacityRule(|v.elems|, v.cap);
      if v.cap > 0 && pos.Off? && 1 <= pos.k < |v.elems| {
        ResizeSetsSize(v, |v.elems| + 1, x, oom);
      }
    case ResizeOp(count, init, oom) =>
      ResizeSetsSize(v, count, init, oom);
    case _ =>
  }

  /** capacity >= size holds after every sequence of operations. */
  lemma {:induction false} RunKeepsValid<T>(v: Vec<T>, ops: seq<Op<T>>)
    requires v.Valid() && ValidSources(ops)
    ensures Run(v, ops).Valid()
    decreases |ops|
  {
    if ops != [] {
      ApplyKeepsValid(v, ops[0]);
      assert ValidSources(ops[1..]) by {
        forall i | 0 <= i < |ops[1..]| && ops[1..][i].AssignOp?
          ensures ops[1..][i].rhs.Valid()
        {
          assert ops[1..][i] == ops[i + 1];
        }
      }
      RunKeepsValid(Apply(v, ops[0]), ops[1..]);
    }
  }
}
