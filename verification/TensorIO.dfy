/** Writing tensors to a byte stream and reading them back. */
module TensorIO {
  import opened Arith
  import opened Shapes
  import opened TensorHeap
  import opened Wrappers

  type byte = bv8

  /** How the machine lays out an index and an element in bytes. */
  datatype Repr = Repr(isize: nat, rsize: nat, encIndex: nat -> seq<byte>, decIndex: seq<byte> -> nat,
                       encReal: real -> seq<byte>, decReal: seq<byte> -> real)
  {
    /** Sizes are positive and fixed, and decoding undoes encoding on the values the machine can hold. */
    ghost predicate Faithful(index: nat -> bool, element: real -> bool) {
      && isize > 0 && rsize > 0
      && (forall n :: |encIndex(n)| == isize && (index(n) ==> decIndex(encIndex(n)) == n))
      && (forall v :: |encReal(v)| == rsize && (element(v) ==> decReal(encReal(v)) == v))
    }

    /** Encodings have the fixed sizes. */
    ghost predicate Sized() {
      isize > 0 && rsize > 0 && (forall n :: |encIndex(n)| == isize) && (forall v :: |encReal(v)| == rsize)
    }
  }

  function Encode<T>(enc: T -> seq<byte>, s: seq<T>): seq<byte> {
    if |s| == 0 then [] else Encode(enc, s[..|s| - 1]) + enc(s[|s| - 1])
  }

  /** The first n values of the given size. */
  function Decode<T>(dec: seq<byte> -> T, size: nat, n: nat, bytes: seq<byte>): (r: seq<T>)
    requires n * size <= |bytes|
    ensures |r| == n
  {
    if n == 0 then [] else
      assert (n - 1) * size + size == n * size;
      Decode(dec, size, n - 1, bytes) + [dec(bytes[(n - 1) * size..n * size])]
  }

  lemma {:induction false} EncodeLength<T>(enc: T -> seq<byte>, size: nat, s: seq<T>)
    requires forall i :: 0 <= i < |s| ==> |enc(s[i])| == size
    ensures |Encode(enc, s)| == |s| * size
  {
    if |s| > 0 {
      EncodeLength(enc, size, s[..|s| - 1]);
      assert (|s| - 1) * size + size == |s| * size;
    }
  }

  /** Every value of s has an encoding of the given size that decodes to it. */
  ghost predicate Codes<T>(enc: T -> seq<byte>, dec: seq<byte> -> T, size: nat, s: seq<T>) {
    forall i :: 0 <= i < |s| ==> |enc(s[i])| == size && dec(enc(s[i])) == s[i]
  }

  /** Decoding reads back exactly what was encoded, whatever follows. */
  lemma {:induction false} DecodeEncode<T>(enc: T -> seq<byte>, dec: seq<byte> -> T, size: nat, s: seq<T>,
                                           rest: seq<byte>)
    requires Codes(enc, dec, size, s)
    ensures |Encode(enc, s)| == |s| * size && Decode(dec, size, |s|, Encode(enc, s) + rest) == s
  {
    EncodeLength(enc, size, s);
    if |s| > 0 {
      var p, t := s[..|s| - 1], s[|s| - 1];
      EncodeLength(enc, size, p);
      assert (|s| - 1) * size + size == |s| * size;
      DecodeEncode(enc, dec, size, p, enc(t) + rest);
      assert Encode(enc, s) + rest == Encode(enc, p) + (enc(t) + rest);
      assert (Encode(enc, s) + rest)[(|s| - 1) * size..|s| * size] == enc(t);
    }
  }

  /** A tensor's contents: its dimensions and its rows, free of stride and padding. */
  datatype Contents = Contents(dims: seq<nat>, rows: seq<seq<real>>) {
    predicate Valid() {
      |dims| >= 1 && |rows| == Prod(dims, 1, |dims|) && forall i :: 0 <= i < |rows| ==> |rows[i]| == dims[0]
    }
  }

  function SavedRows(r: Repr, rows: seq<seq<real>>): seq<byte> {
    if |rows| == 0 then [] else SavedRows(r, rows[..|rows| - 1]) + Encode(r.encReal, rows[|rows| - 1])
  }

  /** The bytes SaveBinary writes. */
  function Saved(r: Repr, c: Contents): seq<byte> {
    Encode(r.encIndex, c.dims) + SavedRows(r, c.rows)
  }

  /** One block read of n values: the values and the bytes left, or None when the read returns 0. */
  function ReadValues<T>(dec: seq<byte> -> T, size: nat, n: nat, bytes: seq<byte>): Option<(seq<T>, seq<byte>)> {
    if n * size == 0 || |bytes| < n * size then None else Some((Decode(dec, size, n, bytes), bytes[n * size..]))
  }

  /** A block of values is read back, whatever follows it. */
  lemma ValuesRoundTrip<T>(enc: T -> seq<byte>, dec: seq<byte> -> T, size: nat, s: seq<T>, rest: seq<byte>)
    requires |s| > 0 && size > 0 && Codes(enc, dec, size, s)
    ensures ReadValues(dec, size, |s|, Encode(enc, s) + rest) == Some((s, rest))
  {
    DecodeEncode(enc, dec, size, s, rest);
    MulMono(1, |s|, size);
    assert (Encode(enc, s) + rest)[|Encode(enc, s)|..] == rest;
  }

  function LoadedRows(r: Repr, width: nat, n: nat, bytes: seq<byte>): Option<(seq<seq<real>>, seq<byte>)> {
    if n == 0 then Some(([], bytes)) else
    match LoadedRows(r, width, n - 1, bytes)
    case None => None
    case Some((rows, rest)) =>
      match ReadValues(r.decReal, r.rsize, width, rest)
      case None => None
      case Some((row, rest')) => Some((rows + [row], rest'))
  }

  /** What LoadBinary of a dim-dimensional tensor reads from a stream, and the bytes it leaves. */
  function Loaded(r: Repr, dim: nat, bytes: seq<byte>): Option<(Contents, seq<byte>)>
    requires dim >= 1
  {
    match ReadValues(r.decIndex, r.isize, dim, bytes)
    case None => None
    case Some((dims, rest)) =>
      if dims[0] == 0 then Some((Contents(dims, seq(Prod(dims, 1, dim), _ => [])), rest))
      else match LoadedRows(r, dims[0], Prod(dims, 1, dim), rest)
        case None => None
        case Some((rows, rest')) => Some((Contents(dims, rows), rest'))
  }

  /** A row of the given width whose elements the machine can hold. */
  ghost predicate RowOk(row: seq<real>, width: nat, element: real -> bool) {
    |row| == width && forall i :: 0 <= i < |row| ==> element(row[i])
  }

  /** A tensor whose sizes and elements the machine can hold. */
  ghost predicate Storable(c: Contents, index: nat -> bool, element: real -> bool) {
    && c.Valid() && (forall d :: d in c.dims ==> index(d))
    && forall i :: 0 <= i < |c.rows| ==> RowOk(c.rows[i], c.dims[0], element)
  }

  lemma RowCodes(r: Repr, row: seq<real>, width: nat, index: nat -> bool, element: real -> bool)
    requires r.Faithful(index, element) && RowOk(row, width, element)
    ensures Codes(r.encReal, r.decReal, r.rsize, row)
  {
    forall i | 0 <= i < |row| ensures |r.encReal(row[i])| == r.rsize && r.decReal(r.encReal(row[i])) == row[i] {
      var v := row[i];
      assert element(v) && |r.encReal(v)| == r.rsize;
      assert r.decReal(r.encReal(v)) == v;
    }
  }

  lemma HeaderCodes(r: Repr, dims: seq<nat>, index: nat -> bool, element: real -> bool)
    requires r.Faithful(index, element) && forall d :: d in dims ==> index(d)
    ensures Codes(r.encIndex, r.decIndex, r.isize, dims)
  {
    forall i | 0 <= i < |dims| ensures |r.encIndex(dims[i])| == r.isize && r.decIndex(r.encIndex(dims[i])) == dims[i] {
      assert index(dims[i]);
    }
  }

  lemma {:induction false} RowsRoundTrip(r: Repr, width: nat, rows: seq<seq<real>>, rest: seq<byte>,
                                         index: nat -> bool, element: real -> bool)
    requires r.Faithful(index, element) && width > 0
    requires forall i :: 0 <= i < |rows| ==> RowOk(rows[i], width, element)
    ensures LoadedRows(r, width, |rows|, SavedRows(r, rows) + rest) == Some((rows, rest))
  {
    if |rows| == 0 {
      assert SavedRows(r, rows) + rest == rest;
    } else {
      var p, last := rows[..|rows| - 1], rows[|rows| - 1];
      var tail := Encode(r.encReal, last) + rest;
      RowsRoundTrip(r, width, p, tail, index, element);
      assert RowOk(rows[|rows| - 1], width, element);
      RowCodes(r, last, width, index, element);
      ValuesRoundTrip(r.encReal, r.decReal, r.rsize, last, rest);
      assert SavedRows(r, rows) + rest == SavedRows(r, p) + tail;
      assert p + [last] == rows;
    }
  }

  lemma {:induction false} EmptyRows(r: Repr, rows: seq<seq<real>>)
    requires forall i :: 0 <= i < |rows| ==> |rows[i]| == 0
    ensures SavedRows(r, rows) == []
  {
    if |rows| > 0 { EmptyRows(r, rows[..|rows| - 1]); }
  }

  lemma HeaderRoundTrip(r: Repr, c: Contents, rest: seq<byte>, index: nat -> bool, element: real -> bool)
    requires r.Faithful(index, element) && Storable(c, index, element)
    ensures ReadValues(r.decIndex, r.isize, |c.dims|, Saved(r, c) + rest) == Some((c.dims, SavedRows(r, c.rows) + rest))
  {
    HeaderCodes(r, c.dims, index, element);
    ValuesRoundTrip(r.encIndex, r.decIndex, r.isize, c.dims, SavedRows(r, c.rows) + rest);
    assert Saved(r, c) + rest == Encode(r.encIndex, c.dims) + (SavedRows(r, c.rows) + rest);
  }

  lemma BodyRoundTrip(r: Repr, c: Contents, rest: seq<byte>, index: nat -> bool, element: real -> bool)
    requires r.Faithful(index, element) && Storable(c, index, element)
    ensures c.dims[0] > 0 ==> LoadedRows(r, c.dims[0], |c.rows|, SavedRows(r, c.rows) + rest) == Some((c.rows, rest))
    ensures c.dims[0] == 0 ==> c.rows == seq(|c.rows|, _ => []) && SavedRows(r, c.rows) + rest == rest
  {
    if c.dims[0] == 0 {
      EmptyRows(r, c.rows);
      assert [] + rest == rest;
    } else {
      RowsRoundTrip(r, c.dims[0], c.rows, rest, index, element);
    }
  }

  /** Loading what was saved gives the same tensor and leaves exactly the bytes that followed it. */
  lemma SaveLoadRoundTrip(r: Repr, c: Contents, rest: seq<byte>, index: nat -> bool, element: real -> bool)
    requires r.Faithful(index, element) && Storable(c, index, element)
    ensures Loaded(r, |c.dims|, Saved(r, c) + rest) == Some((c, rest))
  {
    HeaderRoundTrip(r, c, rest, index, element);
    BodyRoundTrip(r, c, rest, index, element);
  }

  function SavedAll(r: Repr, cs: seq<Contents>): seq<byte> {
    if |cs| == 0 then [] else Saved(r, cs[0]) + SavedAll(r, cs[1..])
  }

  /** Tensors of the given dimensions, read one after the other. */
  function LoadedAll(r: Repr, kinds: seq<nat>, bytes: seq<byte>): Option<(seq<Contents>, seq<byte>)>
    requires forall i :: 0 <= i < |kinds| ==> kinds[i] >= 1
  {
    if |kinds| == 0 then Some(([], bytes)) else
    match Loaded(r, kinds[0], bytes)
    case None => None
    case Some((c, rest)) =>
      match LoadedAll(r, kinds[1..], rest)
      case None => None
      case Some((cs, rest')) => Some(([c] + cs, rest'))
  }

  function Kinds(cs: seq<Contents>): (r: seq<nat>)
    ensures |r| == |cs| && forall i :: 0 <= i < |cs| ==> r[i] == |cs[i].dims|
  {
    seq(|cs|, i requires 0 <= i < |cs| => |cs[i].dims|)
  }

  /** Any number of tensors written to one stream, empty ones included, read back in order. */
  lemma {:induction false} StreamRoundTrip(r: Repr, cs: seq<Contents>, rest: seq<byte>, index: nat -> bool,
                                           element: real -> bool)
    requires r.Faithful(index, element)
    requires forall i :: 0 <= i < |cs| ==> Storable(cs[i], index, element)
    ensures forall i :: 0 <= i < |cs| ==> |cs[i].dims| >= 1
    ensures LoadedAll(r, Kinds(cs), SavedAll(r, cs) + rest) == Some((cs, rest))
  {
    if |cs| == 0 {
      assert SavedAll(r, cs) + rest == rest;
    } else {
      var tail := SavedAll(r, cs[1..]) + rest;
      SaveLoadRoundTrip(r, cs[0], tail, index, element);
      StreamRoundTrip(r, cs[1..], rest, index, element);
      SavedFront(r, cs, rest);
      AllStep(r, cs, SavedAll(r, cs) + rest, tail, rest);
    }
  }

  lemma SavedFront(r: Repr, cs: seq<Contents>, rest: seq<byte>)
    requires |cs| > 0 && forall i :: 0 <= i < |cs| ==> |cs[i].dims| >= 1
    ensures SavedAll(r, cs) + rest == Saved(r, cs[0]) + (SavedAll(r, cs[1..]) + rest)
  {}

  /** Loading one tensor and then the others is loading them all. */
  lemma AllStep(r: Repr, cs: seq<Contents>, bytes: seq<byte>, tail: seq<byte>, rest: seq<byte>)
    requires |cs| > 0 && forall i :: 0 <= i < |cs| ==> |cs[i].dims| >= 1
    requires bytes == Saved(r, cs[0]) + tail
    requires Loaded(r, |cs[0].dims|, Saved(r, cs[0]) + tail) == Some((cs[0], tail))
    requires LoadedAll(r, Kinds(cs[1..]), tail) == Some((cs[1..], rest))
    ensures LoadedAll(r, Kinds(cs), bytes) == Some((cs, rest))
  {
    assert Kinds(cs)[1..] == Kinds(cs[1..]);
    LoadedAllStep(r, Kinds(cs), bytes, cs[0], tail, cs[1..], rest);
    assert [cs[0]] + cs[1..] == cs;
  }

  lemma LoadedAllStep(r: Repr, kinds: seq<nat>, bytes: seq<byte>, c: Contents, tail: seq<byte>, cs: seq<Contents>,
                      rest: seq<byte>)
    requires |kinds| > 0 && forall i :: 0 <= i < |kinds| ==> kinds[i] >= 1
    requires Loaded(r, kinds[0], bytes) == Some((c, tail)) && LoadedAll(r, kinds[1..], tail) == Some((cs, rest))
    ensures LoadedAll(r, kinds, bytes) == Some(([c] + cs, rest))
  {
  }

  // ---- the loops over strided memory ----

  /** A byte stream with FileStream's behaviour: a read succeeds when the whole nonempty block is there. */
  class Stream {
    var data: seq<byte>

    constructor ()
      ensures data == []
    {
      data := [];
    }

    method Write(bytes: seq<byte>)
      modifies this
      ensures data == old(data) + bytes
    {
      data := data + bytes;
    }

    /** fread of one block: a short or empty block returns 0. */
    method Read(size: nat) returns (n: nat, bytes: seq<byte>)
      modifies this
      ensures if size > 0 && size <= |old(data)|
              then n == 1 && bytes == old(data)[..size] && data == old(data)[size..]
              else n == 0
    {
      if size > 0 && size <= |data| {
        n, bytes, data := 1, data[..size], data[size..];
      } else {
        n, bytes := 0, data;
        if size > 0 { data := []; }
      }
    }
  }

  /** Every row of the shape lies inside a block of n elements, and rows do not overlap. */
  predicate Holds(shape: Shape, n: nat) {
    shape.Valid() && shape.Width() <= shape.stride && shape.Rows() * shape.stride <= n
  }

  lemma RowInside(shape: Shape, n: nat, y: nat)
    requires Holds(shape, n) && y < shape.Rows()
    ensures 0 <= y * shape.stride && y * shape.stride + shape.Width() <= n
  {
    MulMono(y + 1, shape.Rows(), shape.stride);
    MulDistrib(y, 1, shape.stride);
    MulNat(y, shape.stride);
  }

  /** Row y of a strided block. */
  function Row(mem: seq<real>, shape: Shape, y: nat): (row: seq<real>)
    requires Holds(shape, |mem|) && y < shape.Rows()
    ensures |row| == shape.Width()
  {
    RowInside(shape, |mem|, y);
    mem[y * shape.stride..y * shape.stride + shape.Width()]
  }

  /** The first n rows of a strided block. */
  function Rows(mem: seq<real>, shape: Shape, n: nat): (r: seq<seq<real>>)
    requires Holds(shape, |mem|) && n <= shape.Rows()
    ensures |r| == n && forall i :: 0 <= i < n ==> r[i] == Row(mem, shape, i)
  {
    if n == 0 then [] else Rows(mem, shape, n - 1) + [Row(mem, shape, n - 1)]
  }

  /** The contents of a strided block, without its stride and padding. */
  function ContentsOf(mem: seq<real>, shape: Shape): (c: Contents)
    requires Holds(shape, |mem|)
    ensures c.Valid()
  {
    var rows := Rows(mem, shape, shape.Rows());
    assert forall i :: 0 <= i < |rows| ==> |rows[i]| == shape.dims[0];
    Contents(shape.dims, rows)
  }

  /** SaveBinary appends the bytes of the contents, whatever the stride. */
  method SaveBinary(fo: Stream, r: Repr, src: array<real>, shape: Shape)
    requires Holds(shape, src.Length)
    modifies fo
    ensures fo.data == old(fo.data) + Saved(r, ContentsOf(src[..], shape))
  {
    ghost var before, mem := fo.data, src[..];
    var head := Encode(r.encIndex, shape.dims);
    fo.Write(head);
    SaveRows(fo, r, src, mem, shape);
    assert before + head + SavedRows(r, Rows(mem, shape, shape.Rows())) ==
           before + (head + SavedRows(r, Rows(mem, shape, shape.Rows())));
  }

  method SaveRows(fo: Stream, r: Repr, src: array<real>, ghost mem: seq<real>, shape: Shape)
    requires Holds(shape, src.Length) && mem == src[..]
    modifies fo
    ensures fo.data == old(fo.data) + SavedRows(r, Rows(mem, shape, shape.Rows()))
  {
    ghost var before := fo.data;
    var i := 0;
    SavedNone(r, mem, shape, before);
    while i < shape.Rows()
      invariant i <= shape.Rows() && SavedTo(fo.data, before, r, mem, shape, i)
    {
      SaveRow(fo, r, src, mem, shape, i);
      SavedGrow(r, mem, shape, i, before);
      i := i + 1;
    }
  }

  ghost predicate SavedTo(data: seq<byte>, before: seq<byte>, r: Repr, mem: seq<real>, shape: Shape, i: nat)
    requires Holds(shape, |mem|) && i <= shape.Rows()
  {
    data == before + SavedRows(r, Rows(mem, shape, i))
  }

  lemma SavedNone(r: Repr, mem: seq<real>, shape: Shape, before: seq<byte>)
    requires Holds(shape, |mem|)
    ensures SavedTo(before, before, r, mem, shape, 0)
  {
  }

  method SaveRow(fo: Stream, r: Repr, src: array<real>, ghost mem: seq<real>, shape: Shape, i: nat)
    requires Holds(shape, src.Length) && mem == src[..] && i < shape.Rows()
    modifies fo
    ensures fo.data == old(fo.data) + Encode(r.encReal, Row(mem, shape, i))
  {
    var row := GetRow(src, mem, shape, i);
    fo.Write(Encode(r.encReal, row));
  }

  lemma SavedGrow(r: Repr, mem: seq<real>, shape: Shape, i: nat, before: seq<byte>)
    requires Holds(shape, |mem|) && i < shape.Rows()
    ensures SavedTo((before + SavedRows(r, Rows(mem, shape, i))) + Encode(r.encReal, Row(mem, shape, i)), before, r,
                    mem, shape, i + 1)
  {
    SavedRowsStep(r, Rows(mem, shape, i), Row(mem, shape, i));
    Regroup(before, SavedRows(r, Rows(mem, shape, i)), Encode(r.encReal, Row(mem, shape, i)));
  }

  lemma Regroup(a: seq<byte>, b: seq<byte>, c: seq<byte>)
    ensures (a + b) + c == a + (b + c)
  {}

  /** The elements of row i, from src[i].dptr on. */
  method GetRow(src: array<real>, ghost mem: seq<real>, shape: Shape, i: nat) returns (row: seq<real>)
    requires Holds(shape, src.Length) && mem == src[..] && i < shape.Rows()
    ensures row == Row(mem, shape, i)
  {
    RowInside(shape, src.Length, i);
    row := src[i * shape.stride..i * shape.stride + shape.Width()];
  }

  lemma SavedRowsStep(r: Repr, rows: seq<seq<real>>, row: seq<real>)
    ensures SavedRows(r, rows + [row]) == SavedRows(r, rows) + Encode(r.encReal, row)
  {
    assert (rows + [row])[..|rows|] == rows;
  }

  /** Once a row is missing the load fails. */
  lemma {:induction false} LoadedRowsFails(r: Repr, width: nat, i: nat, n: nat, bytes: seq<byte>)
    requires i <= n && LoadedRows(r, width, i, bytes) == None
    ensures LoadedRows(r, width, n, bytes) == None
    decreases n
  {
    if i < n { LoadedRowsFails(r, width, i, n - 1, bytes); }
  }

  /** Two blocks agree before row i. */
  lemma {:induction false} RowsUnchanged(m: seq<real>, m': seq<real>, shape: Shape, i: nat, n: nat)
    requires Holds(shape, |m|) && |m'| == |m| && n <= i <= shape.Rows()
    requires forall a :: 0 <= a < i * shape.stride && a < |m| ==> m'[a] == m[a]
    ensures Rows(m', shape, n) == Rows(m, shape, n)
  {
    if n > 0 {
      RowsUnchanged(m, m', shape, i, n - 1);
      RowInside(shape, |m|, n - 1);
      MulMono(n, i, shape.stride);
      MulDistrib(n - 1, 1, shape.stride);
      assert Row(m', shape, n - 1) == Row(m, shape, n - 1);
    }
  }

  method Fill(dst: array<real>, base: nat, row: seq<real>)
    requires base + |row| <= dst.Length
    modifies dst
    ensures dst[base..base + |row|] == row
    ensures forall a :: 0 <= a < base ==> dst[a] == old(dst[a])
  {
    for x := 0 to |row|
      invariant forall k :: 0 <= k < x ==> dst[base + k] == row[k]
      invariant forall a :: 0 <= a < base ==> dst[a] == old(dst[a])
    {
      dst[base + x] := row[x];
    }
  }

  /** Fills row i, and nothing else, with the next row of the stream. */
  method LoadRow(fi: Stream, r: Repr, dst: array<real>, shape: Shape, i: nat) returns (ok: bool)
    requires Holds(shape, dst.Length) && i < shape.Rows() && r.Sized()
    modifies fi, dst
    ensures ok <==> ReadValues(r.decReal, r.rsize, shape.Width(), old(fi.data)).Some?
    ensures ok ==>
            ReadValues(r.decReal, r.rsize, shape.Width(), old(fi.data)) ==
            Some((Row(dst[..], shape, i), fi.data))
    ensures forall a :: 0 <= a < i * shape.stride && a < dst.Length ==> dst[a] == old(dst[a])
  {
    var w := shape.Width();
    MulNat(w, r.rsize);
    var n, block := fi.Read(w * r.rsize);
    ok := n != 0;
    if ok {
      RowInside(shape, dst.Length, i);
      var row := Decode(r.decReal, r.rsize, w, block);
      DecodePrefix(r.decReal, r.rsize, w, old(fi.data));
      Fill(dst, i * shape.stride, row);
      assert Row(dst[..], shape, i) == row;
    }
  }

  /** Decoding looks only at the bytes of the values. */
  lemma DecodePrefix<T>(dec: seq<byte> -> T, size: nat, n: nat, bytes: seq<byte>)
    requires n * size <= |bytes|
    ensures 0 <= n * size && Decode(dec, size, n, bytes[..n * size]) == Decode(dec, size, n, bytes)
  {
    MulNat(n, size);
    DecodeAgrees(dec, size, n, bytes[..n * size], bytes);
  }

  lemma {:induction false} DecodeAgrees<T>(dec: seq<byte> -> T, size: nat, n: nat, a: seq<byte>, b: seq<byte>)
    requires n * size <= |a| && a <= b
    ensures Decode(dec, size, n, a) == Decode(dec, size, n, b)
  {
    if n > 0 {
      MulDistrib(n - 1, 1, size);
      MulNat(n - 1, size);
      DecodeAgrees(dec, size, n - 1, a, b);
      assert a[(n - 1) * size..n * size] == b[(n - 1) * size..n * size];
    }
  }

  method LoadRows(fi: Stream, r: Repr, dst: array<real>, shape: Shape) returns (ok: bool)
    requires Holds(shape, dst.Length) && r.Sized()
    modifies fi, dst
    ensures ok <==> LoadedRows(r, shape.Width(), shape.Rows(), old(fi.data)).Some?
    ensures ok ==>
            LoadedRows(r, shape.Width(), shape.Rows(), old(fi.data)) ==
            Some((Rows(dst[..], shape, shape.Rows()), fi.data))
  {
    ghost var bytes := fi.data;
    var i := 0;
    while i < shape.Rows()
      invariant i <= shape.Rows()
      invariant LoadedRows(r, shape.Width(), i, bytes) == Some((Rows(dst[..], shape, i), fi.data))
    {
      ghost var m := dst[..];
      ok := LoadRow(fi, r, dst, shape, i);
      if !ok {
        LoadedRowsFails(r, shape.Width(), i + 1, shape.Rows(), bytes);
        return;
      }
      RowsUnchanged(m, dst[..], shape, i, i);
      i := i + 1;
    }
    ok := true;
  }

  /**
    LoadBinary: into preallocated storage, whose shape must match, or into storage it allocates. On success the
    contents are what Loaded reads and the stream stands right after them. A failed read or a shape mismatch
    ends the program; here ok is false and the other results mean nothing.
   */
  method LoadBinary(fi: Stream, r: Repr, dim: nat, h: Heap, given: Option<(array<real>, Shape)>)
    returns (ok: bool, dst: array<real>, shape: Shape)
    requires dim >= 1 && r.Sized() && h.Valid()
    requires given.Some? ==> Holds(given.value.1, given.value.0.Length) && |given.value.1.dims| == dim
    modifies fi, h`live, h`issued, if given.Some? then {given.value.0} else {}
    ensures h.Valid()
    ensures given == None ==> fresh(dst) && h.live == old(h.live) + {dst} && h.issued == old(h.issued) + [dst]
    ensures given.Some? ==> (dst, shape) == given.value && h.live == old(h.live) && h.issued == old(h.issued)
    ensures Holds(shape, dst.Length)
    ensures ok <==>
            Loaded(r, dim, old(fi.data)).Some? &&
            (given.Some? ==> Loaded(r, dim, old(fi.data)).value.0.dims == shape.dims)
    ensures ok ==> Loaded(r, dim, old(fi.data)) == Some((ContentsOf(dst[..], shape), fi.data))
  {
    ghost var bytes := fi.data;
    MulNat(dim, r.isize);
    var n, block := fi.Read(dim * r.isize);
    var dims := if n != 0 then Decode(r.decIndex, r.isize, dim, block) else seq(dim, _ => 0);
    if n != 0 { DecodePrefix(r.decIndex, r.isize, dim, bytes); }
    match given {
      case Some((block, s)) =>
        dst, shape := block, s;
      case None =>
        var stride;
        stride, dst := h.AllocSpace(dims[0], Prod(dims, 1, dim), true);
        shape := Shape(dims, stride);
    }
    ok := n != 0 && shape.dims == dims;
    if ok && dims[0] != 0 {
      ok := LoadRows(fi, r, dst, shape);
    } else if ok {
      assert ContentsOf(dst[..], shape).rows == seq(Prod(dims, 1, dim), _ => []);
    }
  }
}
