// A process's open files: a bitmap of used descriptors over eight slots.

module Descriptors {
  import opened Results

  const SLOTS := 8

  /** `1 << i` */
  function Mask(i: nat): bv8
    requires i < SLOTS
  {
    match i
    case 0 => 1
    case 1 => 2
    case 2 => 4
    case 3 => 8
    case 4 => 16
    case 5 => 32
    case 6 => 64
    case _ => 128
  }

  /** The bits above the eighth are never set. */
  predicate Used(fdMap: bv8, i: nat) {
    i < SLOTS && fdMap & Mask(i) != 0
  }

  /** The mask of a descriptor is one shifted left that far, and there are eight. */
  lemma MaskIsShift(i: nat)
    requires i < 8
    ensures SLOTS == 8 && Mask(i) == (1 as bv8) << i
  {
  }

  lemma SetBit(fdMap: bv8, i: nat, j: nat)
    requires i < SLOTS
    ensures Used(fdMap | Mask(i), j) <==> j == i || Used(fdMap, j)
  {
  }

  lemma ClearBit(fdMap: bv8, i: nat, j: nat)
    requires i < SLOTS
    ensures Used(fdMap & !Mask(i), j) <==> j != i && Used(fdMap, j)
  {
  }

  lemma UsedIs(fdMap: bv8, i: nat)
    requires i < SLOTS
    ensures Used(fdMap, i) <==> fdMap & Mask(i) != 0
  {
  }

  /** The files in the slots whose bits are set. */
  function OpenIn<T>(fdMap: bv8, slots: seq<T>): (open: map<nat, T>)
    requires |slots| == SLOTS
    ensures forall i: nat :: i in open <==> Used(fdMap, i)
    ensures forall i: nat :: i in open ==> i < SLOTS && open[i] == slots[i]
  {
    map i: nat | i < SLOTS && Used(fdMap, i) :: slots[i]
  }

  /** Filling a slot and setting its bit opens that descriptor and leaves the others as they are. */
  lemma OneMoreOpen<T>(fdMap: bv8, slots: seq<T>, i: nat, file: T)
    requires |slots| == SLOTS && i < SLOTS
    ensures OpenIn(fdMap | Mask(i), slots[i := file]) == OpenIn(fdMap, slots)[i := file]
  {
    hide OpenIn, Used, Mask;
    forall j: nat ensures Used(fdMap | Mask(i), j) <==> j == i || Used(fdMap, j) {
      SetBit(fdMap, i, j);
    }
  }

  class FileTable<T(0)> {
    var fdMap: bv8
    const fd: array<T>

    /** The open files by descriptor. */
    ghost function Open(): map<nat, T>
      requires fd.Length == SLOTS
      reads this, fd
    {
      OpenIn(fdMap, fd[..])
    }

    /** Descriptors 0, 1 and 2 stand for the terminal. */
    constructor (terminal: T)
      ensures fd.Length == SLOTS && fresh(fd)
      ensures Open() == map[0 := terminal, 1 := terminal, 2 := terminal]
    {
      fdMap := 0x7;
      fd := new T[SLOTS];
      new;
      fd[0], fd[1], fd[2] := terminal, terminal, terminal;
      assert forall i: nat :: Used(0x7, i) <==> i < 3;
    }

    /** Takes the lowest free descriptor; there is none iff all eight are open. */
    method AddFile(file: T) returns (r: int)
      requires fd.Length == SLOTS
      modifies this`fdMap, fd
      ensures r == -1 <==> forall i: nat :: i < SLOTS ==> i in old(Open())
      ensures r == -1 ==> Open() == old(Open())
      ensures r != -1 ==>
        0 <= r < SLOTS && r !in old(Open()) && (forall i: nat :: i < r ==> i in old(Open())) &&
        Open() == old(Open())[r := file]
    {
      hide OpenIn, Used, Mask;
      ghost var open, slots := Open(), fd[..];
      var i := 0;
      while i < SLOTS
        invariant i <= SLOTS && fdMap == old(fdMap) && fd[..] == slots
        invariant forall j: nat :: j < i ==> j in open
      {
        UsedIs(fdMap, i);
        if fdMap & Mask(i) == 0 {
          assert i !in open;
          OneMoreOpen(fdMap, slots, i, file);
          fdMap := fdMap | Mask(i);
          fd[i] := file;
          return i;
        }
        i := i + 1;
      }
      return -1;
    }

    method RemoveFile(i: nat) returns (r: int)
      requires fd.Length == SLOTS && i < 32
      modifies this`fdMap
      ensures r == if i in old(Open()) then 0 else -1
      ensures Open() == old(Open()) - {i}
    {
      if i >= SLOTS || fdMap & Mask(i) == 0 {
        return -1;
      }
      forall j: nat ensures Used(fdMap & !Mask(i), j) <==> j != i && Used(fdMap, j) {
        ClearBit(fdMap, i, j);
      }
      fdMap := fdMap & !Mask(i);
      return 0;
    }

    method GetFile(i: nat) returns (r: Option<T>)
      requires fd.Length == SLOTS && i < 32
      ensures r == if i in Open() then Some(Open()[i]) else None
    {
      if i >= SLOTS || fdMap & Mask(i) == 0 {
        return None;
      }
      return Some(fd[i]);
    }
  }
}
