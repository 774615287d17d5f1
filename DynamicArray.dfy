/*
 * The container `vector<T>` of YuriyKuznetsov_vector.cpp as a class over one
 * buffer.  `data` is `pArray` (a zero-length array stands for `nullptr`),
 * `size` is `arraySize` and `capacity` is `arrayCapacity`.  Every public
 * mutator is proved against the function of the same name in VectorSpec: its
 * `ensures` says that Model() afterwards is what that function makes of
 * old(Model()), and that a failure leaves the container as it was.  The loop
 * helpers state what they leave in the buffer.
 *
 * `oom` says whether the allocation the call would make fails (malloc
 * returning nullptr); `init` stands for the default-constructed `T{}`.
 */
module DynamicArray {
  import opened VectorSpec

  class Vector<T(0)> {
    var data: array<T>
    var size: nat
    var capacity: nat

    /** 0 <= size <= capacity, and the buffer has exactly `capacity` slots. */
    ghost predicate Valid()
      reads this
    {
      data.Length == capacity && size <= capacity
    }

    /** The live prefix of the buffer and the capacity. */
    ghost function Model(): Vec<T>
      reads this, data
      requires Valid()
    {
      Vec(data[..size], capacity)
    }

    // ------------------------------------------------------------ construction

    /** vector(size_t size) */
    constructor Sized(n: nat, init: T)
      ensures Valid() && fresh(data)
      ensures Model() == VectorSpec.Sized(n, init)
    {
      var a := new T[n];
      var index := 0;
      while index < n
        invariant 0 <= index <= n
        invariant forall k :: 0 <= k < index ==> a[k] == init
      {
        a[index] := init;
        index := index + 1;
      }
      data, size, capacity := a, n, n;
      new;
      assert data[..size] == Fill(n, init);
    }

    /** vector(std::initializer_list<T> il) */
    constructor FromList(il: seq<T>)
      ensures Valid() && fresh(data)
      ensures Model() == VectorSpec.FromList(il)
    {
      var a := new T[|il|];
      var count := 0;
      while count < |il|
        invariant 0 <= count <= |il|
        invariant a[..count] == il[..count]
      {
        a[count] := il[count];
        count := count + 1;
      }
      data, size, capacity := a, count, |il|;
      new;
      assert data[..size] == il;
    }

    /** A container that takes over the buffer `a`, with its first `n` slots live. */
    constructor Adopt(a: array<T>, n: nat)
      requires n <= a.Length
      ensures Valid() && data == a && size == n && capacity == a.Length
    {
      data, size, capacity := a, n, a.Length;
    }

    /** vector(T *begin, T *end) over the caller's memory `mem`. */
    static method FromRange(mem: array<T>, first: Pos, last: Pos, oom: bool) returns (r: Result<Vector<T>>)
      requires first.Off? && last.Off? ==> 0 <= first.k <= last.k <= mem.Length
      ensures match VectorSpec.FromRange(mem[..], first, last, oom)
        case Ok(w) => r.Ok? && fresh(r.value) && fresh(r.value.data) && r.value.Valid() && r.value.Model() == w
        case Err(e) => r == Err(e)
    {
      if first == Null || last == Null {
        return Err(InvalidRange);
      }
      if first == last {
        return Err(InvalidRange);
      }
      var count := 0;
      var element := first.k;
      while element != last.k
        invariant first.k <= element <= last.k
        invariant count == element - first.k
        decreases last.k - element
      {
        count := count + 1;
        element := element + 1;
      }
      if oom {
        return Err(OutOfMemory);
      }
      var a := new T[count];
      var index := 0;
      while index < count
        invariant 0 <= index <= count
        invariant a[..index] == mem[first.k..first.k + index]
      {
        a[index] := mem[first.k + index];
        index := index + 1;
      }
      var v := new Vector.Adopt(a, count);
      assert v.data[..v.size] == mem[..][first.k..last.k];
      return Ok(v);
    }

    /** vector(const vector &rhs) */
    static method Copy(rhs: Vector<T>, oom: bool) returns (r: Result<Vector<T>>)
      requires rhs.Valid()
      ensures match VectorSpec.Copy(rhs.Model(), oom)
        case Ok(w) => r.Ok? && fresh(r.value) && fresh(r.value.data) && r.value.Valid() && r.value.Model() == w
        case Err(e) => r == Err(e)
    {
      if rhs.capacity == 0 {
        var v := new Vector.FromList([]);
        return Ok(v);
      }
      if oom {
        return Err(OutOfMemory);
      }
      var a := CopyBuffer(rhs.data, rhs.size, rhs.capacity);
      var v := new Vector.Adopt(a, rhs.size);
      return Ok(v);
    }

    /** A fresh buffer of `cap` slots whose first `n` slots copy those of `src`. */
    static method CopyBuffer(src: array<T>, n: nat, cap: nat) returns (a: array<T>)
      requires n <= src.Length && n <= cap
      ensures fresh(a) && a.Length == cap && a[..n] == src[..n]
    {
      a := new T[cap];
      var index := 0;
      while index < n
        invariant 0 <= index <= n
        invariant a[..index] == src[..index]
      {
        a[index] := src[index];
        index := index + 1;
      }
    }

    /** operator=(const vector &rhs) */
    method Assign(rhs: Vector<T>, oom: bool) returns (st: Outcome)
      requires Valid() && rhs.Valid()
      modifies this
      ensures Valid() && rhs.Valid() && rhs.Model() == old(rhs.Model())
      ensures rhs == this ==> st == Pass && data == old(data) && Model() == old(Model())
      ensures rhs != this ==> fresh(data) && match CopyAssign(old(rhs.Model()), oom)
        case Ok(w) => st == Pass && Model() == w
        case Err(e) => st == Fail(e) && Model() == Emptied()
    {
      if rhs == this {
        return Pass;
      }
      size, capacity := rhs.size, rhs.capacity;
      if oom {
        data, size, capacity := new T[0], 0, 0;
        return Fail(OutOfMemory);
      }
      data := CopyBuffer(rhs.data, size, capacity);
      return Pass;
    }

    /** ~vector(): drops the elements and the buffer. */
    method Dispose()
      requires Valid()
      modifies this
      ensures Valid() && Model() == Emptied()
    {
      if capacity == 0 {
        return;
      }
      DestroyArray();
    }

    /** destroyArray(): destroys the live elements, frees the buffer, zeroes the counters. */
    method DestroyArray()
      modifies this
      ensures Valid() && fresh(data) && Model() == Emptied()
    {
      data := new T[0];
      size := 0;
      capacity := 0;
    }

    // ------------------------------------------------------------ growth

    /** reserve(new_cap) */
    method Reserve(n: nat, oom: bool) returns (st: Outcome)
      requires Valid()
      modifies this
      ensures Valid() && (data == old(data) || fresh(data))
      ensures match VectorSpec.Reserve(old(Model()), n, oom)
        case Ok(w) => st == Pass && Model() == w
        case Err(e) => st == Fail(e) && Model() == old(Model())
    {
      if n <= capacity {
        return Pass;
      }
      if oom {
        return Fail(OutOfMemory);
      }
      var tempArray := CopyBuffer(data, size, n);
      var tempSize := size;
      DestroyArray();
      data, size, capacity := tempArray, tempSize, n;
      return Pass;
    }

    /** push_back(value) */
    method PushBack(x: T, oom: bool) returns (st: Outcome)
      requires Valid()
      modifies this, data
      ensures Valid() && (data == old(data) || fresh(data))
      ensures match VectorSpec.PushBack(old(Model()), x, oom)
        case Ok(w) => st == Pass && Model() == w
        case Err(e) => st == Fail(e) && Model() == old(Model())
    {
      if size == capacity {
        st := Reserve(GrowCapacity(capacity), oom);
        if st.Fail? {
          return;
        }
      }
      data[size] := x;
      size := size + 1;
      return Pass;
    }

    /** emplace_back(args...): the element is built in place by `make` from `args`. */
    method EmplaceBack<A>(make: A -> T, args: A, oom: bool) returns (st: Outcome)
      requires Valid()
      modifies this, data
      ensures Valid() && (data == old(data) || fresh(data))
      ensures match VectorSpec.PushBack(old(Model()), make(args), oom)
        case Ok(w) => st == Pass && Model() == w
        case Err(e) => st == Fail(e) && Model() == old(Model())
    {
      if size == capacity {
        st := Reserve(GrowCapacity(capacity), oom);
        if st.Fail? {
          return;
        }
      }
      data[size] := make(args);
      size := size + 1;
      return Pass;
    }

    /** push_front(value): always moves the elements to a new buffer. */
    method PushFront(x: T, oom: bool) returns (st: Outcome)
      requires Valid()
      modifies this
      ensures Valid() && (data == old(data) || fresh(data))
      ensures match VectorSpec.PushFront(old(Model()), x, oom)
        case Ok(w) => st == Pass && Model() == w
        case Err(e) => st == Fail(e) && Model() == old(Model())
      ensures st == Pass ==> fresh(data)
    {
      var cap := 1;
      if capacity > 0 {
        cap := capacity + capacity * (size / capacity);
      }
      if oom {
        return Fail(OutOfMemory);
      }
      FrontCapacityRule(size, capacity);
      var tempArray := new T[cap];
      tempArray[0] := x;
      var index := 0;
      while index < size
        modifies tempArray
        invariant 0 <= index <= size
        invariant tempArray[0] == x
        invariant tempArray[1..index + 1] == data[..index]
      {
        tempArray[index + 1] := data[index];
        index := index + 1;
      }
      ghost var elems := data[..size];
      assert tempArray[..size + 1] == [x] + elems;
      var tempSize := size;
      DestroyArray();
      data, size, capacity := tempArray, tempSize + 1, cap;
      return Pass;
    }

    // ------------------------------------------------------------ resize

    /** resize(count) */
    method Resize(count: nat, init: T, oom: bool) returns (st: Outcome)
      requires Valid()
      modifies this, data
      ensures Valid() && (data == old(data) || fresh(data))
      ensures match VectorSpec.Resize(old(Model()), count, init, oom)
        case Ok(w) => st == Pass && Model() == w
        case Err(e) => st == Fail(e) && Model() == old(Model())
    {
      if count == size {
        return Pass;
      }
      if count < size {
        size := count;
        return Pass;
      }
      if count > capacity {
        st := Reserve(count, oom);
        if st.Fail? {
          return;
        }
      }
      ghost var elems := data[..size];
      var index := size;
      while index < count
        modifies data
        invariant size <= index <= count
        invariant data[..size] == elems
        invariant forall k :: size <= k < index ==> data[k] == init
      {
        data[index] := init;
        index := index + 1;
      }
      assert data[..count] == elems + Fill(count - size, init);
      size := count;
      return Pass;
    }

    // ------------------------------------------------------------ insert / erase

    /** insert(pos, value) */
    method Insert(pos: Pos, x: T, oom: bool) returns (r: Result<Pos>)
      requires Valid()
      modifies this, data
      ensures Valid() && (data == old(data) || fresh(data))
      ensures match VectorSpec.Insert(old(Model()), pos, x, oom)
        case Ok(p) => r == Ok(p.at) && Model() == p.after
        case Err(e) => r == Err(e) && Model() == old(Model())
    {
      if pos == Null {
        return Err(InvalidPointer);
      }
      if pos == Addr(capacity, size) {
        var st := PushBack(x, oom);
        if st.Fail? {
          return Err(st.error);
        }
        return Ok(Addr(capacity, size));
      }
      if pos == Addr(capacity, 0) {
        var st := PushFront(x, oom);
        if st.Fail? {
          return Err(st.error);
        }
        return Ok(Addr(capacity, 0));
      }
      var insertBeforeIndex := FindInterior(pos);
      if insertBeforeIndex == 0 {
        return Err(InvalidPointer);
      }
      var st := InsertBefore(insertBeforeIndex, x, oom);
      if st.Fail? {
        return Err(st.error);
      }
      return Ok(pos);
    }

    /** The interior case of insert: grow by one with resize, shift the
        elements from index `i` on up by one, and store `x` at `i`. */
    method InsertBefore(i: nat, x: T, oom: bool) returns (st: Outcome)
      requires Valid() && 1 <= i < size
      modifies this, data
      ensures Valid() && (data == old(data) || fresh(data))
      ensures old(size) == old(capacity) && oom ==> st == Fail(OutOfMemory) && Model() == old(Model())
      ensures old(size) < old(capacity) || !oom ==>
        st == Pass &&
        Model().elems == old(Model().elems)[..i] + [x] + old(Model().elems)[i..] &&
        Model().cap == if old(size) < old(capacity) then old(capacity) else old(size) + 1
    {
      ghost var elems := data[..size];
      ResizeByOne(Model(), x, oom);
      st := Resize(size + 1, x, oom);
      if st.Fail? {
        return;
      }
      ghost var grown := data[..size];
      assert grown == elems + [x];
      assert grown[..i] == elems[..i];
      assert grown[i..size - 1] == elems[i..];
      ShiftRight(i, x);
    }

    /** The search loop of insert: the index 1 <= i < size whose address is
        `pos`, or 0 when no interior element has that address. */
    method FindInterior(pos: Pos) returns (found: nat)
      requires Valid()
      ensures found == if capacity > 0 && pos.Off? && 1 <= pos.k < size then pos.k else 0
    {
      found := 0;
      var index := 1;
      while index < size && found == 0
        invariant 1 <= index
        invariant found == 0 ==> forall j :: 1 <= j < index ==> pos != Addr(capacity, j)
        invariant found != 0 ==> 1 <= found < size && pos == Addr(capacity, found)
      {
        if pos == Addr(capacity, index) {
          found := index;
        }
        index := index + 1;
      }
      assert capacity > 0 && pos.Off? ==> pos == Addr(capacity, pos.k);
    }

    /** The shift loop of insert and the store after it: from the top down,
        every slot `from+1..size-1` takes the value of the slot below it, then
        `x` goes into slot `from`.  The old last live value is overwritten. */
    method ShiftRight(from: nat, x: T)
      requires Valid() && 1 <= from < size
      modifies data
      ensures data[..size] == old(data[..from]) + [x] + old(data[from..size - 1])
    {
      var a, n := data, size;
      ghost var src := a[..];
      var rIndex := n - 1;
      while rIndex >= from
        invariant from - 1 <= rIndex <= n - 1
        invariant forall k :: 0 <= k <= rIndex ==> a[k] == src[k]
        invariant forall k :: rIndex < k < n ==> a[k] == src[k - 1]
      {
        a[rIndex] := a[rIndex - 1];
        rIndex := rIndex - 1;
      }
      a[from] := x;
      ShiftedRight(a[..], src, from, x, n);
    }

    /** erase(size_t pos) */
    method EraseAt(i: nat) returns (r: Result<Pos>)
      requires Valid()
      modifies this, data
      ensures Valid() && data == old(data)
      ensures match VectorSpec.EraseAt(old(Model()), i)
        case Ok(p) => r == Ok(p.at) && Model() == p.after
        case Err(e) => r == Err(e) && Model() == old(Model())
    {
      if i >= size {
        return Err(OutOfRange);
      }
      ghost var elems := data[..size];
      var index := i;
      while index < size - 1
        modifies data
        invariant i <= index <= size - 1
        invariant data[..i] == elems[..i]
        invariant forall k :: i <= k < index ==> data[k] == elems[k + 1]
        invariant forall k :: index <= k < size ==> data[k] == elems[k]
      {
        data[index] := data[index + 1];
        index := index + 1;
      }
      size := size - 1;
      assert data[..size] == elems[..i] + elems[i + 1..];
      return Ok(Addr(capacity, i));
    }

    /** erase(T *pos) */
    method ErasePtr(pos: Pos) returns (r: Result<Pos>)
      requires Valid()
      modifies this, data
      ensures Valid() && data == old(data)
      ensures match VectorSpec.ErasePtr(old(Model()), pos)
        case Ok(p) => r == Ok(p.at) && Model() == p.after
        case Err(e) => r == Err(e) && Model() == old(Model())
    {
      if pos == Null {
        return Err(InvalidPointer);
      }
      if pos == Addr(capacity, size) {
        return Err(InvalidPointer);
      }
      var isErased := ShiftOver(pos);
      if !isErased {
        return Err(InvalidPointer);
      }
      size := size - 1;
      return Ok(pos);
    }

    /** The loop of erase(T*): in one pass, finds the element whose address is
        `pos` and moves every later element down over it; when there is no
        such element nothing is written. */
    method ShiftOver(pos: Pos) returns (isErased: bool)
      requires Valid()
      modifies data
      ensures isErased == (capacity > 0 && pos.Off? && 0 <= pos.k < size)
      ensures !isErased ==> data[..] == old(data[..])
      ensures isErased ==> data[..size - 1] == old(data[..pos.k]) + old(data[pos.k + 1..size])
    {
      var a, n, cap := data, size, capacity;
      ghost var src := a[..];
      ghost var m: nat := n;
      isErased := false;
      var index := 0;
      while index < n
        invariant 0 <= index <= n
        invariant isErased == (m < n)
        invariant isErased ==> m < index < n && cap > 0 && pos == Off(m)
        invariant !isErased ==> m == n && !(cap > 0 && pos.Off? && 0 <= pos.k < index)
        invariant forall j :: 0 <= j < a.Length && (j < m || index <= j) ==> a[j] == src[j]
        invariant forall j :: m <= j < index ==> a[j] == src[j + 1]
      {
        if pos == Addr(cap, index) {
          m := index;
          isErased := true;
        }
        if isErased {
          if index == n - 1 {
            break;
          }
          a[index] := a[index + 1];
        }
        index := index + 1;
      }
      assert cap > 0 && pos.Off? ==> pos == Addr(cap, pos.k);
      if isErased {
        GapClosed(a[..], src, m, m + 1, n);
      } else {
        assert a[..] == src;
      }
    }

    /** erase(T *begin, T *end) */
    method EraseRange(first: Pos, last: Pos) returns (r: Result<Pos>)
      requires Valid()
      modifies this, data
      ensures Valid() && data == old(data)
      ensures match VectorSpec.EraseRange(old(Model()), first, last)
        case Ok(p) => r == Ok(p.at) && Model() == p.after
        case Err(e) => r == Err(e) && Model() == old(Model())
    {
      if first == Null || last == Null || first == last {
        return Err(InvalidPointer);
      }
      var beginIndex, endIndex := LocateRange(first, last);
      if endIndex == 0 {
        return Err(InvalidPointer);
      }
      CloseGap(beginIndex, endIndex);
      size := size - (endIndex - beginIndex);
      return Ok(first);
    }

    /** The search loop of erase(T*, T*): over the addresses of indices
        0..size, `begin` is looked for first and `end` only after it.  A zero
        `endIndex` means no match. */
    method LocateRange(first: Pos, last: Pos) returns (beginIndex: nat, endIndex: nat)
      requires Valid() && first.Off? && last.Off? && first != last
      ensures endIndex == if capacity > 0 && 0 <= first.k < last.k <= size then last.k else 0
      ensures endIndex != 0 ==> beginIndex == first.k
    {
      var isBeginIndex := false;
      beginIndex, endIndex := 0, 0;
      var index := 0;
      while index <= size
        invariant 0 <= index <= size + 1
        invariant isBeginIndex == (capacity > 0 && 0 <= first.k < index)
        invariant beginIndex == if isBeginIndex then first.k else 0
        invariant endIndex == if capacity > 0 && 0 <= first.k < last.k < index then last.k else 0
      {
        if beginIndex == 0 && Addr(capacity, index) == first {
          beginIndex := index;
          isBeginIndex := true;
        }
        if endIndex == 0 && isBeginIndex && Addr(capacity, index) == last {
          endIndex := index;
        }
        index := index + 1;
      }
    }

    /** The shift loop of erase(T*, T*): the elements from `endIndex` on move
        down by `endIndex - beginIndex` slots, over the erased span. */
    method CloseGap(beginIndex: nat, endIndex: nat)
      requires Valid() && beginIndex < endIndex <= size
      modifies data
      ensures data[..size - (endIndex - beginIndex)] == old(data[..beginIndex]) + old(data[endIndex..size])
    {
      var a, n, span := data, size, endIndex - beginIndex;
      ghost var src := a[..];
      var index := beginIndex;
      while index < n
        invariant beginIndex <= index <= n
        invariant forall j :: 0 <= j < beginIndex ==> a[j] == src[j]
        invariant forall j :: beginIndex <= j < index - span ==> a[j] == src[j + span]
        invariant forall k :: index <= k < n ==> a[k] == src[k]
      {
        if endIndex <= index {
          a[index - span] := a[index];
        }
        index := index + 1;
      }
      GapClosed(a[..], src, beginIndex, endIndex, n);
    }

    // ------------------------------------------------------------ accessors

    /** begin() */
    method Begin() returns (p: Pos)
      requires Valid()
      ensures p == VectorSpec.Begin(Model())
      ensures p == Null <==> capacity == 0
    {
      if capacity == 0 {
        return Null;
      }
      return Off(0);
    }

    /** end(): nullptr when there is no buffer, else one past the last live element. */
    method End() returns (p: Pos)
      requires Valid()
      ensures p == VectorSpec.End(Model())
      ensures p == Null <==> capacity == 0
    {
      if capacity == 0 {
        return Null;
      }
      return Off(size);
    }

    /** size() */
    method Size() returns (n: nat)
      requires Valid()
      ensures n == |Model().elems|
    {
      return size;
    }

    /** capacity() */
    method Capacity() returns (n: nat)
      requires Valid()
      ensures n == Model().cap && n >= |Model().elems|
    {
      return capacity;
    }

    /** empty() */
    method Empty() returns (b: bool)
      requires Valid()
      ensures b <==> Model().elems == []
    {
      return size == 0;
    }

    /** front(): unchecked, so the container must not be empty. */
    method Front() returns (x: T)
      requires Valid() && size > 0
      ensures x == Model().elems[0]
    {
      return data[0];
    }

    /** back(): unchecked, so the container must not be empty. */
    method Back() returns (x: T)
      requires Valid() && size > 0
      ensures x == Model().elems[|Model().elems| - 1]
    {
      return data[size - 1];
    }

    /** operator[](pos) const: unchecked, so pos must be below size. */
    method Get(i: nat) returns (x: T)
      requires Valid() && i < size
      ensures x == Model().elems[i]
    {
      return data[i];
    }

    /** Writing through the reference operator[](pos) returns. */
    method Set(i: nat, x: T)
      requires Valid() && i < size
      modifies data
      ensures Valid() && Model() == old(Model()).(elems := old(Model()).elems[i := x])
    {
      data[i] := x;
    }
  }

  /** What CloseGap leaves, element by element, is the buffer without the span. */
  lemma GapClosed<T>(d: seq<T>, src: seq<T>, b: nat, e: nat, n: nat)
    requires b < e <= n <= |d| == |src|
    requires forall j :: 0 <= j < b ==> d[j] == src[j]
    requires forall j :: b <= j < n - (e - b) ==> d[j] == src[j + (e - b)]
    ensures d[..n - (e - b)] == src[..b] + src[e..n]
  {
    var kept := src[..b] + src[e..n];
    forall j | 0 <= j < n - (e - b)
      ensures d[j] == kept[j]
    {
      if b <= j {
        assert kept[j] == src[j + (e - b)];
      }
    }
  }

  /** What ShiftRight leaves, element by element, is the prefix, `x`, then the
      rest moved up by one. */
  lemma ShiftedRight<T>(d: seq<T>, src: seq<T>, from: nat, x: T, n: nat)
    requires from < n <= |d| == |src|
    requires forall k :: 0 <= k < from ==> d[k] == src[k]
    requires d[from] == x
    requires forall k :: from < k < n ==> d[k] == src[k - 1]
    ensures d[..n] == src[..from] + [x] + src[from..n - 1]
  {
    var want := src[..from] + [x] + src[from..n - 1];
    forall k | 0 <= k < n
      ensures d[k] == want[k]
    {
      if from < k {
        assert want[k] == src[k - 1];
      }
    }
  }

}
