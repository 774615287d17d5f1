/*
 * Three places where YuriyKuznetsov_vector.cpp does not do what it evidently
 * means to, modelled as the code is written, each with the input that shows
 * the discrepancy.  VectorSpec and DynamicArray model the corrected
 * behaviour; the lemmas named beside each defect are proved about that.
 */
module AsWritten {
  import opened VectorSpec

  /** Where the element written by push_back lands: inside the buffer, or past its end. */
  datatype Store<T> = InBuffer(after: Vec<T>) | PastBuffer

  /** push_back / emplace_back as written: a full container asks reserve for
      `capacity * 2` slots, then the element is written at index `size`.
      (Corrected: VectorSpec.GrowCapacity, VectorSpec.PushBackAppends.) */
  function PushBackAsWritten<T>(v: Vec<T>, x: T): (r: Store<T>)
    ensures r.InBuffer? ==> r.after.Valid() && r.after.elems == v.elems + [x]
  {
    var w := if |v.elems| == v.cap then After(Reserve(v, v.cap * 2, false), v) else v;
    if |w.elems| < w.cap then InBuffer(Vec(w.elems + [x], w.cap)) else PastBuffer
  }

  /** The write goes past the buffer exactly when there is no buffer: doubling 0 is 0. */
  lemma PushBackAsWrittenOverflowsIff<T>(v: Vec<T>, x: T)
    requires v.Valid()
    ensures PushBackAsWritten(v, x) == PastBuffer <==> v.cap == 0
    ensures PushBackAsWritten(v, x).InBuffer? ==> PushBackAsWritten(v, x).after.elems == v.elems + [x]
  {
  }

  /** The input that shows it: push_back on an empty vector that owns no buffer. */
  lemma PushBackAsWrittenOnEmpty(x: int)
    ensures PushBackAsWritten(Vec([], 0), x) == PastBuffer
    ensures PushBack(Vec([], 0), x, false) == Ok(Vec([x], 1))
  {
    assert [] + [x] == [x];
  }

  /** resize as written: the branch that grows beyond the capacity reserves and
      constructs the new elements, but never sets `arraySize = count`.
      (Corrected: VectorSpec.Resize, VectorSpec.ResizeSetsSize.) */
  function ResizeAsWritten<T>(v: Vec<T>, count: nat, init: T, oom: bool): (r: Result<Vec<T>>)
    ensures r.Err? <==> count > |v.elems| && count > v.cap && oom
    ensures r.Ok? ==> r.value.cap >= v.cap
    ensures r.Ok? && count <= v.cap ==> |r.value.elems| == count
    ensures r.Ok? && count > v.cap && count >= |v.elems| ==> r.value.elems == v.elems
  {
    if count == |v.elems| then Ok(v)
    else if count < |v.elems| then Ok(Vec(v.elems[..count], v.cap))
    else if count <= v.cap then Ok(Vec(v.elems + Fill(count - |v.elems|, init), v.cap))
    else
      match Reserve(v, count, oom)
      case Ok(w) => Ok(w)
      case Err(e) => Err(e)
  }

  /** Growing past the capacity changes the capacity but not the size. */
  lemma ResizeAsWrittenKeepsSize<T>(v: Vec<T>, count: nat, init: T)
    requires v.Valid() && count > v.cap
    ensures ResizeAsWritten(v, count, init, false) == Ok(Vec(v.elems, count))
    ensures |ResizeAsWritten(v, count, init, false).value.elems| != count
    ensures Resize(v, count, init, false).Ok? && |Resize(v, count, init, false).value.elems| == count
  {
  }

  /** insert at an interior position as written: resize(size + 1) as written,
      then the shift loop runs over the live prefix that resize left, from
      index `arraySize - 1` down to `i`, and `x` is stored at `i`.
      (Corrected: VectorSpec.Insert, VectorSpec.InsertSplices.) */
  function InsertInteriorAsWritten<T>(v: Vec<T>, i: nat, x: T): (r: Vec<T>)
    requires v.Valid() && 1 <= i < |v.elems|
    ensures |r.elems| == if |v.elems| < v.cap then |v.elems| + 1 else |v.elems|
    ensures r.elems[..i] == v.elems[..i] && r.elems[i] == x
  {
    var w := ResizeAsWritten(v, |v.elems| + 1, x, false).value;
    Vec(w.elems[..i] + [x] + w.elems[i..|w.elems| - 1], w.cap)
  }

  /** With room to spare the interior insert splices `x` in; on a full
      container it overwrites the last element instead and the size stays. */
  lemma InsertInteriorAsWrittenDropsLast<T>(v: Vec<T>, i: nat, x: T)
    requires v.Valid() && 1 <= i < |v.elems|
    ensures |v.elems| < v.cap ==>
      InsertInteriorAsWritten(v, i, x).elems == v.elems[..i] + [x] + v.elems[i..]
    ensures |v.elems| == v.cap ==>
      InsertInteriorAsWritten(v, i, x).elems == v.elems[..i] + [x] + v.elems[i..|v.elems| - 1] &&
      |InsertInteriorAsWritten(v, i, x).elems| == |v.elems|
  {
    var n := |v.elems|;
    var w := ResizeAsWritten(v, n + 1, x, false).value;
    if n < v.cap {
      assert Fill(1, x) == [x];
      assert w.elems == v.elems + [x];
      assert w.elems[..i] == v.elems[..i];
      assert w.elems[i..|w.elems| - 1] == v.elems[i..];
    } else {
      assert w.elems == v.elems;
    }
  }

  /** The input that shows it: inserting 9 before index 1 of the full [1, 2]
      gives [1, 9]; the corrected insert gives [1, 9, 2]. */
  lemma InsertInteriorAsWrittenExample()
    ensures InsertInteriorAsWritten(Vec([1, 2], 2), 1, 9).elems == [1, 9]
    ensures Insert(Vec([1, 2], 2), Off(1), 9, false).Ok?
    ensures Insert(Vec([1, 2], 2), Off(1), 9, false).value.after.elems == [1, 9, 2]
  {
    InsertInteriorAsWrittenDropsLast(Vec([1, 2], 2), 1, 9);
    InsertSplices(Vec([1, 2], 2), 1, 9);
    assert [1, 2][..1] + [9] + [1, 2][1..] == [1, 9, 2];
  }
}
