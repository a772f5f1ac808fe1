/** A tensor that owns its storage and reuses it when resized. */
module TensorContainer {
  import opened Arith
  import opened Shapes
  import opened TensorHeap
  import opened TensorIO
  import opened Wrappers

  class Container {
    const dim: nat
    /** The view: where it starts (null for none) and its shape. */
    var dptr: array?<real>
    var shape: Shape
    var pad: bool
    /** The storage the container owns: its block and its capacity, rows of some stride. */
    var data: array?<real>
    var capacity: Shape

    /** The view fits in the owned block, and the block is live. */
    ghost predicate Valid(h: Heap)
      reads this, h
    {
      && h.Valid() && dim >= 1 && |shape.dims| == dim && |capacity.dims| == 2 && dptr == data
      && (data == null ==> capacity.stride == 0 && capacity.dims[1] == 0)
      && (data != null ==> data in h.live && capacity.dims[1] * capacity.stride <= data.Length)
      && shape.Width() <= shape.stride && shape.Rows() * shape.stride <= capacity.dims[1] * capacity.stride
    }

    /** What h.live must be after this container goes from owning `was` to owning `data`, all other blocks as before. */
    twostate predicate OwnershipMoved(h: Heap)
      reads this, h
    {
      && (data == old(data) ==> h.live == old(h.live) && h.freed == old(h.freed) && h.issued == old(h.issued))
      && (data != old(data) ==>
            && data != null && h.live == (old(h.live) - if old(data) == null then {} else {old(data)}) + {data}
            && h.freed == old(h.freed) + (if old(data) == null then [] else [old(data)])
            && h.issued == old(h.issued) + [data])
    }

    /** An empty container; the sizes it does not set are whatever they were. */
    constructor (dim: nat, pad: bool, h: Heap, unset: seq<nat>, unsetWidth: nat)
      requires h.Valid() && dim >= 1 && |unset| == dim - 1
      ensures Valid(h) && data == null && this.dim == dim && this.pad == pad
    {
      this.dim := dim;
      this.pad := pad;
      dptr := null;
      data := null;
      shape := Shape([0] + unset, 0);
      capacity := Shape([unsetWidth, 0], 0);
      new;
      MulNat(shape.Rows(), 0);
    }

    /** A container of a given shape. */
    constructor OfShape(dims: seq<nat>, pad: bool, h: Heap)
      requires h.Valid() && |dims| >= 1
      modifies h
      ensures Valid(h) && shape.dims == dims && data != null && fresh(data)
      ensures h.live == old(h.live) + {data} && h.freed == old(h.freed) && h.issued == old(h.issued) + [data]
    {
      this.dim := |dims|;
      this.pad := pad;
      dptr := null;
      data := null;
      shape := Shape(dims, 0);
      capacity := Shape([0, 0], 0);
      new;
      AllocByShape(dims, h);
    }

    method FreeSpace(h: Heap)
      requires h.Valid() && (data != null ==> data in h.live)
      modifies this`data, this`dptr, h`live, h`freed
      ensures h.Valid() && data == null
      ensures old(data) == null ==> h.live == old(h.live) && h.freed == old(h.freed) && dptr == old(dptr)
      ensures old(data) != null ==>
                h.live == old(h.live) - {old(data)} && h.freed == old(h.freed) + [old(data)] && dptr == null
    {
      if data != null {
        h.AlignedFree(data);
        data := null;
        dptr := null;
      }
    }

    method AllocByShape(dims: seq<nat>, h: Heap)
      requires h.Valid() && (data != null ==> data in h.live) && |dims| == dim >= 1
      modifies this, h
      ensures Valid(h) && shape.dims == dims && pad == old(pad) && data != null && fresh(data)
      ensures OwnershipMoved(h)
      ensures capacity.dims == [dims[0], Prod(dims, 1, dim)]
    {
      if data != null {
        FreeSpace(h);
      }
      var rows := Prod(dims, 1, dim);
      var stride, block := h.AllocSpace(dims[0], rows, pad);
      data := block;
      dptr := block;
      capacity := Shape([dims[0], rows], stride);
      shape := Shape(dims, if pad then stride else dims[0]);
    }

    /**
      Resize reallocates only when the rows or the width exceed the capacity; afterwards the view has the
      requested shape and fits either way.
     */
    method Resize(dims: seq<nat>, h: Heap)
      requires Valid(h) && |dims| == dim
      modifies this, h
      ensures Valid(h) && shape.dims == dims && pad == old(pad) && OwnershipMoved(h)
      ensures data == old(data) <==> dims[0] <= old(capacity.stride) && Prod(dims, 1, dim) <= old(capacity.dims[1])
      ensures data == old(data) ==> capacity == old(capacity)
      ensures data != old(data) ==> fresh(data)
    {
      var width, rows := dims[0], Prod(dims, 1, dim);
      if width > capacity.stride || rows > capacity.dims[1] {
        AllocByShape(dims, h);
      } else {
        shape := Shape(dims, if pad then capacity.stride else width);
        Fits(rows, shape.stride, capacity.dims[1], capacity.stride);
      }
    }

    lemma Fits(rows: nat, stride: nat, crows: nat, cstride: nat)
      requires rows <= crows && stride <= cstride
      ensures rows * stride <= crows * cstride
    {
      MulMono(rows, crows, stride);
      MulMono(stride, cstride, crows);
    }

    method SetPad(pad: bool, h: Heap)
      requires Valid(h)
      modifies this`pad
      ensures Valid(h) && this.pad == pad
    {
      this.pad := pad;
    }

    /** Loads through a temporary tensor; the container then holds the tensor read, and the temporary is freed. */
    method LoadBinary(fi: Stream, r: Repr, h: Heap) returns (ok: bool)
      requires Valid(h) && r.Sized()
      modifies this, h, fi, data
      ensures ok <==> Loaded(r, dim, old(fi.data)).Some?
      ensures ok ==> Valid(h) && data == dptr && pad == old(pad) && (data != old(data) ==> fresh(data))
      ensures ok ==> shape.dims == Loaded(r, dim, old(fi.data)).value.0.dims
      ensures ok ==> old(h.issued) <= h.issued && old(h.freed) <= h.freed
      ensures ok ==> h.live == (if data == old(data) then old(h.live)
                                else (old(h.live) - if old(data) == null then {} else {old(data)}) + {data})
      ensures ok && data != null ==>
              Holds(shape, data.Length) && Loaded(r, dim, old(fi.data)) == Some((ContentsOf(data[..], shape), fi.data))
    {
      var tmp, tshape;
      ok, tmp, tshape := TensorIO.LoadBinary(fi, r, dim, h, None);
      if !ok { return; }
      Resize(tshape.dims, h);
      if data != null {
        Copy(data, shape, tmp, tshape);
      }
      h.AlignedFree(tmp);
    }

    method Destroy(h: Heap)
      requires Valid(h)
      modifies this, h`live, h`freed
      ensures h.Valid() && data == null
      ensures h.live == old(h.live) - if old(data) == null then {} else {old(data)}
      ensures h.freed == old(h.freed) + if old(data) == null then [] else [old(data)]
    {
      FreeSpace(h);
    }
  }

  /** Copy: row by row between tensors of one shape and any strides. */
  method Copy(dst: array<real>, dshape: Shape, src: array<real>, sshape: Shape)
    requires Holds(dshape, dst.Length) && Holds(sshape, src.Length) && dshape.dims == sshape.dims && dst != src
    modifies dst
    ensures ContentsOf(dst[..], dshape) == ContentsOf(src[..], sshape)
  {
    var i := 0;
    while i < dshape.Rows()
      invariant i <= dshape.Rows()
      invariant Rows(dst[..], dshape, i) == Rows(src[..], sshape, i)
    {
      ghost var m := dst[..];
      RowInside(dshape, dst.Length, i);
      var row := GetRow(src, src[..], sshape, i);
      Fill(dst, i * dshape.stride, row);
      RowsUnchanged(m, dst[..], dshape, i, i);
      assert Row(dst[..], dshape, i) == row;
      i := i + 1;
    }
  }

  /** In a view that fits, every multi-index has an address inside the block, and different ones differ. */
  lemma ElementsApart(shape: Shape, n: nat, a: seq<nat>, b: seq<nat>)
    requires Holds(shape, n) && InDims(shape.dims, a) && InDims(shape.dims, b)
    ensures 0 <= Subscript(Tensor(0, shape), a) < n
    ensures Subscript(Tensor(0, shape), a) == Subscript(Tensor(0, shape), b) ==> a == b
  {
    var t := Tensor(0, shape);
    SubscriptIsFlat(t, a);
    PositionBound(shape.dims, a, 1, |a|);
    RowInside(shape, n, Position(shape.dims, a, 1, |a|));
    if Subscript(t, a) == Subscript(t, b) { SubscriptInjective(t, a, b); }
  }

  /** Resizing one container leaves every container of another block as it was. */
  method ResizeBeside(c: Container, other: Container, dims: seq<nat>, h: Heap)
    requires c.Valid(h) && other.Valid(h) && c != other && |dims| == c.dim
    requires c.data == null || c.data != other.data
    modifies c, h
    ensures c.Valid(h) && other.Valid(h) && (c.data == null || c.data != other.data)
  {
    c.Resize(dims, h);
  }

  datatype Op = ResizeTo(dims: seq<nat>) | PadTo(pad: bool) | LoadFrom(bytes: seq<byte>)

  /** What the outside can see of a container and the heap. */
  datatype State = State(shape: Shape, pad: bool, data: array?<real>, live: set<array<real>>)

  /** The view fits in storage that the container owns and that is live. */
  ghost predicate Sound(s: State, dim: nat) {
    && |s.shape.dims| == dim >= 1 && s.shape.Width() <= s.shape.stride
    && (s.data == null ==> s.shape.Rows() * s.shape.stride == 0)
    && (s.data != null ==> s.data in s.live && s.shape.Rows() * s.shape.stride <= s.data.Length)
  }

  /** What the container owns. */
  ghost function Owned(data: array?<real>): set<array<real>> { if data == null then {} else {data} }

  /** The operation took the container from s to t: its shape and padding, and the blocks that are live. */
  ghost predicate Does(op: Op, s: State, t: State, dim: nat, r: Repr)
    requires dim >= 1 && r.Sized()
  {
    && t.live == s.live - Owned(s.data) + Owned(t.data)
    && match op
       case ResizeTo(dims) => t.shape.dims == dims && t.pad == s.pad
       case PadTo(pad) => t == s.(pad := pad)
       case LoadFrom(bytes) =>
         Loaded(r, dim, bytes).Some? && t.shape.dims == Loaded(r, dim, bytes).value.0.dims && t.pad == s.pad
  }

  /** Before and after every operation the container is sound, and the operations do what they should. */
  ghost predicate IsLife(states: seq<State>, ops: seq<Op>, dim: nat, r: Repr)
    requires dim >= 1 && r.Sized()
  {
    && |states| == |ops| + 1
    && (forall k :: 0 <= k < |states| ==> Sound(states[k], dim))
    && forall k :: 0 <= k < |ops| ==> Does(ops[k], states[k], states[k + 1], dim, r)
  }

  lemma LivesOn(states: seq<State>, ops: seq<Op>, n: nat, dim: nat, r: Repr, next: State)
    requires dim >= 1 && r.Sized() && n < |ops| && IsLife(states, ops[..n], dim, r)
    requires Sound(next, dim) && Does(ops[n], states[n], next, dim, r)
    ensures IsLife(states + [next], ops[..n + 1], dim, r)
  {
    var more, all := states + [next], ops[..n + 1];
    forall k | 0 <= k < |all| ensures Does(all[k], more[k], more[k + 1], dim, r) {
      assert k < n ==> all[k] == ops[..n][k];
    }
  }

  lemma IsSound(c: Container, h: Heap)
    requires c.Valid(h)
    ensures Sound(State(c.shape, c.pad, c.data, h.live), c.dim)
  {
    if c.data == null {
      assert c.capacity.dims[1] * c.capacity.stride == 0;
      MulNat(c.shape.Rows(), c.shape.stride);
    }
  }

  /** One operation; a failed load ends the program. */
  method Do(c: Container, op: Op, h: Heap, r: Repr) returns (ok: bool)
    requires c.Valid(h) && r.Sized() && (op.ResizeTo? ==> |op.dims| == c.dim)
    modifies c, h, c.data
    ensures ok <==> (op.LoadFrom? ==> Loaded(r, c.dim, op.bytes).Some?)
    ensures ok ==> c.Valid(h) && (c.data != old(c.data) ==> fresh(c.data))
    ensures ok ==> old(h.issued) <= h.issued && old(h.freed) <= h.freed
    ensures ok ==> Does(op, old(State(c.shape, c.pad, c.data, h.live)), State(c.shape, c.pad, c.data, h.live), c.dim, r)
  {
    ok := true;
    match op {
      case ResizeTo(dims) =>
        c.Resize(dims, h);
      case PadTo(p) =>
        c.SetPad(p, h);
      case LoadFrom(bytes) =>
        var fi := new Stream();
        fi.Write(bytes);
        assert fi.data == bytes;
        ok := c.LoadBinary(fi, r, h);
    }
  }

  /** Everything that is done to a container, which keeps the books of the heap. */
  method DoAll(c: Container, ops: seq<Op>, h: Heap, r: Repr, ghost others: set<array<real>>)
    returns (ok: bool, ghost states: seq<State>)
    requires c.Valid(h) && r.Sized() && c.data == null && h.live == others
    requires forall op :: op in ops && op.ResizeTo? ==> |op.dims| == c.dim
    modifies c, h
    ensures ok <==> forall op :: op in ops && op.LoadFrom? ==> Loaded(r, c.dim, op.bytes).Some?
    ensures ok ==> c.Valid(h) && IsLife(states, ops, c.dim, r)
    ensures ok ==> h.live == others + Owned(c.data) && (c.data != null ==> c.data !in others)
    ensures ok ==> old(h.issued) <= h.issued && old(h.freed) <= h.freed
  {
    IsSound(c, h);
    states := [State(c.shape, c.pad, c.data, h.live)];
    for i := 0 to |ops|
      invariant c.Valid(h) && (c.data != null ==> fresh(c.data))
      invariant h.live == others + Owned(c.data) && (c.data != null ==> c.data !in others)
      invariant old(h.issued) <= h.issued && old(h.freed) <= h.freed
      invariant IsLife(states, ops[..i], c.dim, r) && states[i] == State(c.shape, c.pad, c.data, h.live)
      invariant forall k :: 0 <= k < i && ops[k].LoadFrom? ==> Loaded(r, c.dim, ops[k].bytes).Some?
    {
      assert ops[i] in ops;
      ok := Do(c, ops[i], h, r);
      if !ok { return; }
      IsSound(c, h);
      LivesOn(states, ops, i, c.dim, r, State(c.shape, c.pad, c.data, h.live));
      states := states + [State(c.shape, c.pad, c.data, h.live)];
    }
    assert ops[..|ops|] == ops;
    ok := true;
  }

  /**
    A container's whole life: before and after everything that is done to it, its view fits in live storage it owns,
    and when it is destroyed the blocks allocated since its construction, and no others, have been freed, each once
    (a failed load ends the program).
   */
  method Lifetime(h: Heap, r: Repr, dim: nat, pad: bool, unset: seq<nat>, unsetWidth: nat, ops: seq<Op>)
    returns (ok: bool, ghost states: seq<State>, ghost issued: seq<array<real>>, ghost freed: seq<array<real>>)
    requires h.Valid() && dim >= 1 && |unset| == dim - 1 && r.Sized()
    requires forall op :: op in ops && op.ResizeTo? ==> |op.dims| == dim
    modifies h
    ensures ok <==> forall op :: op in ops && op.LoadFrom? ==> Loaded(r, dim, op.bytes).Some?
    ensures ok ==> IsLife(states, ops, dim, r)
    ensures ok ==> h.Valid() && h.live == old(h.live)
    ensures ok ==> h.issued == old(h.issued) + issued && h.freed == old(h.freed) + freed
    ensures ok ==> |freed| == |issued| && forall b :: b in freed <==> b in issued
  {
    var c := new Container(dim, pad, h, unset, unsetWidth);
    issued, freed := [], [];
    ok, states := DoAll(c, ops, h, r, h.live);
    if ok {
      c.Destroy(h);
      issued, freed := h.issued[|old(h.issued)|..], h.freed[|old(h.freed)|..];
      FreedSince(old(h.issued), old(h.freed), h.live, issued, freed);
    }
  }
}
