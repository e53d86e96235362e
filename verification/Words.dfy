// Bytes, 32-bit words and the memory a Cortex-M program reads them from.

module Words {

  const WORD_LIMIT := 0x1_0000_0000
  const HALF_LIMIT := 0x1_0000

  type Byte = b: int | 0 <= b < 256
  type Half = h: int | 0 <= h < HALF_LIMIT
  type Word = w: int | 0 <= w < WORD_LIMIT

  /** What address arithmetic on a 32-bit machine leaves of an integer. */
  function Wrap(x: int): Word {
    x % WORD_LIMIT
  }

  // Little-endian packing, the "<H" and "<I" formats of the generator.

  function Pack16(v: Half): (bytes: seq<Byte>)
    ensures |bytes| == 2
  {
    [v % 256, v / 256]
  }

  function Pack32(v: Word): (bytes: seq<Byte>)
    ensures |bytes| == 4
  {
    [v % 256, v / 0x100 % 256, v / 0x1_0000 % 256, v / 0x100_0000]
  }

  function Unpack16(b0: Byte, b1: Byte): Half {
    b0 + 0x100 * b1
  }

  function Unpack32(b0: Byte, b1: Byte, b2: Byte, b3: Byte): Word {
    b0 + 0x100 * b1 + 0x1_0000 * b2 + 0x100_0000 * b3
  }

  lemma UnpackPack16(v: Half)
    ensures Unpack16(Pack16(v)[0], Pack16(v)[1]) == v
  {
  }

  lemma UnpackPack32(v: Word)
    ensures var p := Pack32(v); Unpack32(p[0], p[1], p[2], p[3]) == v
  {
    assert v / 0x100 / 0x100 == v / 0x1_0000;
    assert v / 0x1_0000 / 0x100 == v / 0x100_0000;
  }

  /** The word stored at offset `at` of a byte string. */
  function WordAt(bytes: seq<Byte>, at: nat): Word
    requires at + 4 <= |bytes|
  {
    Unpack32(bytes[at], bytes[at + 1], bytes[at + 2], bytes[at + 3])
  }

  /** The address space: whatever a load from an address returns. */
  type Memory = int -> Byte

  function Read16(mem: Memory, a: int): Half {
    Unpack16(mem(a), mem(a + 1))
  }

  function Read32(mem: Memory, a: int): Word {
    Unpack32(mem(a), mem(a + 1), mem(a + 2), mem(a + 3))
  }

  /** What copying `n` bytes from address `a` yields. */
  function Slice(mem: Memory, a: int, n: nat): (bytes: seq<Byte>)
    ensures |bytes| == n
    ensures forall i :: 0 <= i < n ==> bytes[i] == mem(a + i)
  {
    seq(n, i => mem(a + i))
  }

  /** The byte string lies in memory from address `a` on. */
  ghost predicate Holds(mem: Memory, a: int, bytes: seq<Byte>) {
    forall i :: 0 <= i < |bytes| ==> bytes[i] == mem(a + i)
  }

  lemma HoldsConcat(mem: Memory, a: int, left: seq<Byte>, right: seq<Byte>)
    requires Holds(mem, a, left + right)
    ensures Holds(mem, a, left) && Holds(mem, a + |left|, right)
  {
    var all := left + right;
    forall i | 0 <= i < |left| ensures left[i] == mem(a + i) {
      assert all[i] == left[i];
    }
    forall i | 0 <= i < |right| ensures right[i] == mem(a + |left| + i) {
      assert all[|left| + i] == right[i];
    }
  }

  lemma HoldsSlice(mem: Memory, a: int, bytes: seq<Byte>)
    requires Holds(mem, a, bytes)
    ensures Slice(mem, a, |bytes|) == bytes
  {
  }

  lemma HoldsPack16(mem: Memory, a: int, v: Half)
    requires Holds(mem, a, Pack16(v))
    ensures Read16(mem, a) == v
  {
    var p := Pack16(v);
    assert p[0] == mem(a + 0) && p[1] == mem(a + 1);
    UnpackPack16(v);
  }

  lemma HoldsPack32(mem: Memory, a: int, v: Word)
    requires Holds(mem, a, Pack32(v))
    ensures Read32(mem, a) == v
  {
    var p := Pack32(v);
    assert p[0] == mem(a + 0) && p[1] == mem(a + 1) && p[2] == mem(a + 2) && p[3] == mem(a + 3);
    UnpackPack32(v);
  }

  /** The loader's and the generator's round-up to a 16-byte boundary. */
  function Align16(x: int): (y: int)
    ensures x <= y < x + 16 && y % 16 == 0
  {
    if x % 16 != 0 then x + (16 - x % 16) else x
  }
}
