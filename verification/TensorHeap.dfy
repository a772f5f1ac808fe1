/** Blocks of tensor memory: which were allocated, which of them are live, and which were freed. */
module TensorHeap {
  import opened Arith
  import opened Shapes
  import opened Sums

  /** Blocks are arrays of elements; an element takes 4 or 8 bytes. */
  class Heap {
    const sizeof: nat
    var live: set<array<real>>
    ghost var issued: seq<array<real>>
    ghost var freed: seq<array<real>>

    constructor (sizeof: nat)
      requires sizeof == 4 || sizeof == 8
      ensures Valid() && live == {} && issued == [] && freed == []
    {
      this.sizeof := sizeof;
      live := {};
      issued, freed := [], [];
    }

    /** No block is allocated twice, or freed twice; the live ones are those allocated and not freed. */
    ghost predicate Valid()
      reads this
    {
      (sizeof == 4 || sizeof == 8) && Books(issued, freed, live)
    }

    /** num_line lines of at least lspace bytes, each a multiple of 16 bytes long. */
    method AlignedMallocPitch(lspace: nat, num_line: nat) returns (pitch: nat, block: array<real>)
      requires Valid()
      modifies this`live, this`issued
      ensures Valid() && fresh(block) && live == old(live) + {block} && issued == old(issued) + [block]
      ensures pitch == (lspace + 15) / 16 * 16 && block.Length == pitch * num_line / sizeof
    {
      pitch := (lspace + 15) / 16 * 16;
      MulNat(pitch, num_line);
      block := new real[pitch * num_line / sizeof];
      live := live + {block};
      issued := issued + [block];
    }

    method AlignedFree(block: array<real>)
      requires Valid() && block in live
      modifies this`live, this`freed
      ensures Valid() && live == old(live) - {block} && freed == old(freed) + [block]
    {
      live := live - {block};
      freed := freed + [block];
    }

    /**
      AllocSpace: storage for rows of the given width, padded to whole pitches or contiguous. The stride is
      at least the width, and rows times stride elements fit.
     */
    method AllocSpace(width: nat, rows: nat, pad: bool) returns (stride: nat, block: array<real>)
      requires Valid()
      modifies this`live, this`issued
      ensures Valid() && fresh(block) && live == old(live) + {block} && issued == old(issued) + [block]
      ensures width <= stride && (!pad ==> stride == width) && rows * stride <= block.Length
    {
      var pitch: nat;
      if pad {
        pitch, block := AlignedMallocPitch(width * sizeof, rows);
        stride := pitch / sizeof;
        PitchHolds(width, rows, sizeof, pitch);
      } else {
        stride := width;
        MulNat(width, rows);
        MulNat(width * rows, sizeof);
        pitch, block := AlignedMallocPitch(width * rows * sizeof, 1);
        PitchHolds(width * rows, 1, sizeof, pitch);
      }
    }
  }

  ghost predicate Books(issued: seq<array<real>>, freed: seq<array<real>>, live: set<array<real>>) {
    && NoDup(issued) && NoDup(freed)
    && (forall b :: b in live ==> b in issued && b !in freed)
    && (forall b :: b in issued ==> b in live || b in freed)
    && (forall b :: b in freed ==> b in issued)
  }

  /** When as much is live as before, what was allocated since, and nothing else, was freed since. */
  lemma FreedSince(a0: seq<array<real>>, f0: seq<array<real>>, live: set<array<real>>, a: seq<array<real>>,
                   f: seq<array<real>>)
    requires Books(a0, f0, live) && Books(a0 + a, f0 + f, live)
    ensures |f| == |a| && forall b :: b in f <==> b in a
  {
    NoDupSides(a0, a);
    NoDupSides(f0, f);
    forall b | b in a ensures b in f { assert b in a0 + a; }
    forall b | b in f ensures b in a { assert b in f0 + f; }
    SameSize(a, f, a0, f0);
  }

  lemma NoDupSides<T>(s: seq<T>, t: seq<T>)
    requires NoDup(s + t)
    ensures forall i, j :: 0 <= i < |s| && 0 <= j < |t| ==> s[i] != t[j]
  {
    forall i, j | 0 <= i < |s| && 0 <= j < |t| ensures s[i] != t[j] {
      assert (s + t)[i] != (s + t)[|s| + j];
    }
  }

  lemma SameSize<T>(a: seq<T>, f: seq<T>, a0: seq<T>, f0: seq<T>)
    requires NoDup(a0 + a) && NoDup(f0 + f) && forall b :: b in f <==> b in a
    ensures |f| == |a|
  {
    NoDupTail(a0, a);
    NoDupTail(f0, f);
    NoDupSize(a);
    NoDupSize(f);
    assert (set x | x in a) == (set x | x in f);
  }

  lemma NoDupTail<T>(s: seq<T>, t: seq<T>)
    requires NoDup(s + t)
    ensures NoDup(t)
  {
    forall i, j | 0 <= i < j < |t| ensures t[i] != t[j] {
      assert (s + t)[|s| + i] != (s + t)[|s| + j];
    }
  }

  lemma {:induction false} NoDupSize<T>(s: seq<T>)
    requires NoDup(s)
    ensures |set x | x in s| == |s|
  {
    if s != [] {
      var n := |s| - 1;
      NoDupSize(s[..n]);
      assert s == s[..n] + [s[n]];
      assert (set x | x in s) == (set x | x in s[..n]) + {s[n]};
    }
  }

  /** A pitch is a whole number of elements, at least the width, and pitch * rows bytes hold rows of that stride. */
  lemma PitchHolds(width: nat, rows: nat, sizeof: nat, pitch: int)
    requires (sizeof == 4 || sizeof == 8) && pitch == (width * sizeof + 15) / 16 * 16
    ensures width <= pitch / sizeof && rows * (pitch / sizeof) == pitch * rows / sizeof
  {
    var stride := pitch / sizeof;
    assert pitch == stride * sizeof;
    assert width <= stride;
    MulRotate(stride, sizeof, rows);
    assert pitch * rows == (stride * rows) * sizeof;
    Digits(stride * rows, 0, sizeof);
  }
}
