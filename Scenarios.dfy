/*
 * Clients of the class: what a caller of vector<int> can conclude from the
 * contracts alone, on small concrete containers.
 */
module Scenarios {
  import opened VectorSpec
  import opened DynamicArray

  /** {1, 2, 3} then push_back(4): [1, 2, 3, 4], size 4, capacity doubled. */
  method AppendToList()
  {
    var v := new Vector.FromList([1, 2, 3]);
    var st := v.PushBack(4, false);
    assert v.Model() == Vec([1, 2, 3, 4], 6);
    var n := v.Size();
    assert n == 4;
  }

  /** vector(3) of int: [0, 0, 0]. */
  method SizedDefaults()
  {
    var v := new Vector.Sized(3, 0);
    assert v.Model().elems == [0, 0, 0];
    var b := v.Back();
    assert b == 0;
  }

  /** push_front(9) on [1, 2, 3]: [9, 1, 2, 3] in a doubled buffer. */
  method PrependToList()
  {
    var v := new Vector.FromList([1, 2, 3]);
    var st := v.PushFront(9, false);
    assert v.Model() == Vec([9, 1, 2, 3], 6);
    var f := v.Front();
    assert f == 9;
  }

  /** erase(1) on [1, 2, 3, 4]: [1, 3, 4], size 3. */
  method EraseSecond()
  {
    var v := new Vector.FromList([1, 2, 3, 4]);
    var r := v.EraseAt(1);
    assert v.Model().elems == [1, 2, 3, 4][..1] + [1, 2, 3, 4][2..];
    assert v.Model().elems == [1, 3, 4];
  }

  /** insert(begin() + 1, 99) on the full [1, 2, 3]: [1, 99, 2, 3] with the
      corrected resize.  The source as written gives [1, 99, 2] here, because
      its resize beyond the capacity keeps the size (AsWritten.dfy). */
  method InsertSecond()
  {
    var v := new Vector.FromList([1, 2, 3]);
    var p := v.Begin();
    var r := v.Insert(Off(p.k + 1), 99, false);
    assert r == Ok(Off(1));
    assert v.Model().elems == [1, 2, 3][..1] + [99] + [1, 2, 3][1..];
    assert v.Model().elems == [1, 99, 2, 3];
  }

  /** A range of two equal pointers is refused before anything is allocated. */
  method EmptyRange(mem: array<int>)
    requires mem.Length > 0
  {
    var r := Vector.FromRange(mem, Off(0), Off(0), false);
    assert r == Err(InvalidRange);
  }

  /** insert(end(), v) on a vector that owns no buffer: end() is nullptr, which insert refuses. */
  method InsertIntoNoBuffer()
  {
    var v := new Vector.FromList([]);
    var e := v.End();
    var r := v.Insert(e, 5, false);
    assert r == Err(InvalidPointer);
    assert v.Model() == Vec([], 0);
  }

  /** A copy owns its own buffer: writing into it leaves the source alone. */
  method CopyIsIndependent()
  {
    var v := new Vector.FromList([1, 2]);
    var r := Vector.Copy(v, false);
    var c := r.value;
    c.Set(0, 7);
    assert c.Model().elems == [7, 2];
    assert v.Model().elems == [1, 2];
  }

  /** Containers never share a buffer: an insert or a self-assignment on one
      leaves it apart from any other. */
  method StaySeparate(v: Vector<int>, c: Vector<int>, pos: Pos, x: int, oom: bool)
    requires v.Valid() && c.Valid() && v.data != c.data
    modifies v, v.data
  {
    var r := v.Insert(pos, x, oom);
    assert v.data != c.data;
    var st := v.Assign(v, oom);
    assert v.data != c.data;
  }
}
