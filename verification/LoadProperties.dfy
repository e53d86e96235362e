// What the loader's phases do to any image, linked well or not: every error, every slot and every word.

module LoadProperties {
  import opened Results
  import opened Words
  import opened ModuleFormat
  import opened LoadSpec

  // ---------- External relocations

  /** The slot that entry `k` of a table is for. */
  function IndexAt(mem: Memory, address: int, k: nat): Word {
    ReadEntry(mem, address + ENTRY_SIZE * k).index
  }

  function OffsetAt(mem: Memory, address: int, k: nat): Word {
    ReadEntry(mem, address + ENTRY_SIZE * k).offset
  }

  /** The code of the symbol that lies as far behind entry `k` as its offset says. */
  function CodeAt(mem: Memory, address: int, k: nat): Word {
    ReadSymbol(mem, Wrap(address + ENTRY_SIZE * k + OffsetAt(mem, address, k))).code
  }

  /** Entry `k` is for slot `i`, and the environment lists its symbol. */
  predicate IsFor(mem: Memory, address: int, entries: seq<SymbolAddress>, i: nat, k: nat) {
    IndexAt(mem, address, k) == i && Lists(entries, CodeAt(mem, address, k))
  }

  ghost predicate LastFor(mem: Memory, address: int, n: nat, entries: seq<SymbolAddress>, i: nat, k: nat) {
    k < n && IsFor(mem, address, entries, i, k) && forall l :: k < l < n ==> !IsFor(mem, address, entries, i, l)
  }

  /** Slot `i` has the address of the last listed symbol whose entry is for it, or what was there before. */
  ghost predicate ExternalSlot(mem: Memory, address: int, n: nat, entries: seq<SymbolAddress>, was: Word, i: nat, now: Word) {
    && (forall k: nat :: LastFor(mem, address, n, entries, i, k) ==> Gives(entries, CodeAt(mem, address, k), now))
    && ((forall k :: 0 <= k < n ==> !IsFor(mem, address, entries, i, k)) ==> now == was)
  }

  lemma ExternalStep(mem: Memory, address: int, n: nat, entries: seq<SymbolAddress>, fill: Fill)
    ensures var next := FillExternal(mem, address + ENTRY_SIZE * n, entries, fill);
      && (next.OutOfRange? <==>
            fill.OutOfRange? || (Lists(entries, CodeAt(mem, address, n)) && IndexAt(mem, address, n) >= |fill.lot|))
      && (next.Filled? ==>
            && |next.lot| == |fill.lot|
            && (next.complete <==> fill.complete && Lists(entries, CodeAt(mem, address, n)))
            && (Lists(entries, CodeAt(mem, address, n)) ==>
                  Gives(entries, CodeAt(mem, address, n), next.lot[IndexAt(mem, address, n)]))
            && forall i :: 0 <= i < |fill.lot| && (i != IndexAt(mem, address, n) || !Lists(entries, CodeAt(mem, address, n))) ==>
                 next.lot[i] == fill.lot[i])
  {
    hide ReadEntry, ReadSymbol, Wrap, Gives, Lists;
  }

  lemma ExternalSlotMore(mem: Memory, address: int, n: nat, entries: seq<SymbolAddress>, was: Word, i: nat, now: Word, next: Word)
    requires ExternalSlot(mem, address, n, entries, was, i, now)
    requires IsFor(mem, address, entries, i, n) ==> Gives(entries, CodeAt(mem, address, n), next)
    requires !IsFor(mem, address, entries, i, n) ==> next == now
    ensures ExternalSlot(mem, address, n + 1, entries, was, i, next)
  {
    hide IsFor, CodeAt, Gives;
    forall k: nat | LastFor(mem, address, n + 1, entries, i, k) ensures Gives(entries, CodeAt(mem, address, k), next) {
      if k < n {
        assert !IsFor(mem, address, entries, i, n);
        assert LastFor(mem, address, n, entries, i, k);
      }
    }
  }

  /**
   * The external phase stores past the LOT iff some listed symbol's slot lies outside it. Otherwise it
   * is complete iff every symbol is listed, and every slot has the address of the last listed symbol
   * whose entry is for it.
   */
  lemma {:induction false} ExternalPhase(mem: Memory, address: int, n: nat, entries: seq<SymbolAddress>, lot: seq<Word>)
    ensures var fill := FillExternals(mem, address, n, entries, lot);
      && (fill.OutOfRange? <==>
            exists k :: 0 <= k < n && Lists(entries, CodeAt(mem, address, k)) && IndexAt(mem, address, k) >= |lot|)
      && (fill.Filled? ==>
            && |fill.lot| == |lot|
            && (fill.complete <==> forall k :: 0 <= k < n ==> Lists(entries, CodeAt(mem, address, k)))
            && forall i :: 0 <= i < |lot| ==> ExternalSlot(mem, address, n, entries, lot[i], i, fill.lot[i]))
  {
    hide FillExternal, IndexAt, CodeAt, Lists, Gives, ExternalSlot;
    if n == 0 {
      NothingForSlots(mem, address, entries, lot);
    } else {
      ExternalPhase(mem, address, n - 1, entries, lot);
      var before := FillExternals(mem, address, n - 1, entries, lot);
      var fill := FillExternals(mem, address, n, entries, lot);
      ExternalStep(mem, address, n - 1, entries, before);
      if fill.Filled? {
        forall i | 0 <= i < |lot| ensures ExternalSlot(mem, address, n, entries, lot[i], i, fill.lot[i]) {
          ExternalSlotMore(mem, address, n - 1, entries, lot[i], i, before.lot[i], fill.lot[i]);
        }
      }
    }
  }

  lemma NothingForSlots(mem: Memory, address: int, entries: seq<SymbolAddress>, lot: seq<Word>)
    ensures forall i :: 0 <= i < |lot| ==> ExternalSlot(mem, address, 0, entries, lot[i], i, lot[i])
  {
  }

  // ---------- Local relocations

  /** What entry `k` stores: an even index stands for an address in the text, an odd one for one in the data. */
  function LocalAt(mem: Memory, address: int, k: nat, text: Word, data: Word): Word {
    Wrap(OffsetAt(mem, address, k) + if IndexAt(mem, address, k) % 2 == 0 then text else data)
  }

  ghost predicate LastLocal(mem: Memory, address: int, n: nat, i: nat, k: nat) {
    k < n && IndexAt(mem, address, k) / 2 == i && forall l :: k < l < n ==> IndexAt(mem, address, l) / 2 != i
  }

  ghost predicate LocalSlot(mem: Memory, address: int, n: nat, text: Word, data: Word, was: Word, i: nat, now: Word) {
    && (forall k: nat :: LastLocal(mem, address, n, i, k) ==> now == LocalAt(mem, address, k, text, data))
    && ((forall k :: 0 <= k < n ==> IndexAt(mem, address, k) / 2 != i) ==> now == was)
  }

  lemma LocalStep(mem: Memory, address: int, n: nat, text: Word, data: Word, fill: Fill)
    ensures var next := FillLocal(mem, address + ENTRY_SIZE * n, text, data, fill);
      && (next.OutOfRange? <==> fill.OutOfRange? || IndexAt(mem, address, n) / 2 >= |fill.lot|)
      && (next.Filled? ==>
            && next.lot == fill.lot[IndexAt(mem, address, n) / 2 := LocalAt(mem, address, n, text, data)]
            && next.complete == fill.complete)
  {
    hide ReadEntry, Wrap;
    var entry := ReadEntry(mem, address + ENTRY_SIZE * n);
    assert entry.offset + text == text + entry.offset && entry.offset + data == data + entry.offset;
  }

  lemma LocalSlotMore(mem: Memory, address: int, n: nat, text: Word, data: Word, was: Word, i: nat, now: Word, next: Word)
    requires LocalSlot(mem, address, n, text, data, was, i, now)
    requires next == if IndexAt(mem, address, n) / 2 == i then LocalAt(mem, address, n, text, data) else now
    ensures LocalSlot(mem, address, n + 1, text, data, was, i, next)
  {
    hide IndexAt, LocalAt;
    forall k: nat | LastLocal(mem, address, n + 1, i, k) ensures next == LocalAt(mem, address, k, text, data) {
      assert k < n ==> LastLocal(mem, address, n, i, k);
    }
  }

  /**
   * The local phase stores past the LOT iff half of some index is no slot of it. Otherwise every slot
   * has what the last entry for it stores.
   */
  lemma {:induction false} LocalPhase(mem: Memory, address: int, n: nat, text: Word, data: Word, lot: seq<Word>)
    ensures var fill := FillLocals(mem, address, n, text, data, lot);
      && (fill.OutOfRange? <==> exists k :: 0 <= k < n && IndexAt(mem, address, k) / 2 >= |lot|)
      && (fill.Filled? ==>
            && |fill.lot| == |lot|
            && forall i :: 0 <= i < |lot| ==> LocalSlot(mem, address, n, text, data, lot[i], i, fill.lot[i]))
  {
    hide FillLocal, IndexAt, LocalAt, LocalSlot;
    if n == 0 {
      NothingForLocals(mem, address, text, data, lot);
    } else {
      LocalPhase(mem, address, n - 1, text, data, lot);
      var before := FillLocals(mem, address, n - 1, text, data, lot);
      var fill := FillLocals(mem, address, n, text, data, lot);
      LocalStep(mem, address, n - 1, text, data, before);
      if fill.Filled? {
        forall i | 0 <= i < |lot| ensures LocalSlot(mem, address, n, text, data, lot[i], i, fill.lot[i]) {
          LocalSlotMore(mem, address, n - 1, text, data, lot[i], i, before.lot[i], fill.lot[i]);
        }
      }
    }
  }

  lemma NothingForLocals(mem: Memory, address: int, text: Word, data: Word, lot: seq<Word>)
    ensures forall i :: 0 <= i < |lot| ==> LocalSlot(mem, address, 0, text, data, lot[i], i, lot[i])
  {
  }

  // ---------- Data relocations

  ghost predicate LastData(mem: Memory, address: int, n: nat, w: nat, k: nat) {
    k < n && IndexAt(mem, address, k) == w && forall l :: k < l < n ==> IndexAt(mem, address, l) != w
  }

  /** Word `w` of the block is the data address behind the offset of the last entry for it, or what it was. */
  ghost predicate DataWord(mem: Memory, address: int, n: nat, data: Word, was: seq<Byte>, w: nat, now: seq<Byte>)
    requires |now| == |was| && 4 * w + 4 <= |was|
  {
    && (forall k: nat :: LastData(mem, address, n, w, k) ==> WordAt(now, 4 * w) == Wrap(data + OffsetAt(mem, address, k)))
    && ((forall k :: 0 <= k < n ==> IndexAt(mem, address, k) != w) ==> now[4 * w..4 * w + 4] == was[4 * w..4 * w + 4])
  }

  lemma WordStored(before: seq<Byte>, at: nat, v: Word, after: seq<Byte>)
    requires at + 4 <= |before| && after == before[..at] + Pack32(v) + before[at + 4..]
    ensures |after| == |before| && WordAt(after, at) == v
    ensures forall b :: 0 <= b < |before| && !(at <= b < at + 4) ==> after[b] == before[b]
  {
    var p := Pack32(v);
    assert after[at] == p[0] && after[at + 1] == p[1] && after[at + 2] == p[2] && after[at + 3] == p[3];
    UnpackPack32(v);
  }

  lemma WordKept(before: seq<Byte>, after: seq<Byte>, at: nat)
    requires |after| == |before| && at + 4 <= |before|
    requires forall b :: at <= b < at + 4 ==> after[b] == before[b]
    ensures WordAt(after, at) == WordAt(before, at) && after[at..at + 4] == before[at..at + 4]
  {
    hide Unpack32;
  }

  lemma DataWordMore(mem: Memory, address: int, n: nat, data: Word, was: seq<Byte>, w: nat, now: seq<Byte>, next: seq<Byte>)
    requires |next| == |now| == |was| && 4 * w + 4 <= |was| && DataWord(mem, address, n, data, was, w, now)
    requires IndexAt(mem, address, n) == w ==> WordAt(next, 4 * w) == Wrap(data + OffsetAt(mem, address, n))
    requires IndexAt(mem, address, n) != w ==>
      WordAt(next, 4 * w) == WordAt(now, 4 * w) && next[4 * w..4 * w + 4] == now[4 * w..4 * w + 4]
    ensures DataWord(mem, address, n + 1, data, was, w, next)
  {
    hide IndexAt, OffsetAt, Wrap, WordAt;
    forall k: nat | LastData(mem, address, n + 1, w, k)
      ensures WordAt(next, 4 * w) == Wrap(data + OffsetAt(mem, address, k))
    {
      assert k < n ==> LastData(mem, address, n, w, k);
    }
  }

  lemma DataStep(mem: Memory, address: int, n: nat, data: Word, bytes: seq<Byte>)
    ensures var before, next := RelocateData(mem, address, n, data, bytes), RelocateData(mem, address, n + 1, data, bytes);
      var at := 4 * IndexAt(mem, address, n);
      && (next.None? <==> before.None? || at + 4 > |bytes|)
      && (next.Some? ==>
            && |next.value| == |before.value| == |bytes|
            && WordAt(next.value, at) == Wrap(data + OffsetAt(mem, address, n))
            && forall b :: 0 <= b < |bytes| && !(at <= b < at + 4) ==> next.value[b] == before.value[b])
  {
    hide Wrap, Pack32, ReadEntry, WordAt;
    var before := RelocateData(mem, address, n, data, bytes);
    var at := 4 * IndexAt(mem, address, n);
    if before.Some? && at + 4 <= |bytes| {
      WordStored(before.value, at, Wrap(data + OffsetAt(mem, address, n)), RelocateData(mem, address, n + 1, data, bytes).value);
    }
  }

  /**
   * The data phase stores past the block iff some word's index lies outside it. Otherwise every word
   * of the block is as the last entry for it says.
   */
  lemma {:induction false} DataPhase(mem: Memory, address: int, n: nat, data: Word, bytes: seq<Byte>)
    ensures var r := RelocateData(mem, address, n, data, bytes);
      && (r.None? <==> exists k :: 0 <= k < n && 4 * IndexAt(mem, address, k) + 4 > |bytes|)
      && (r.Some? ==> forall w :: 0 <= w && 4 * w + 4 <= |bytes| ==> DataWord(mem, address, n, data, bytes, w, r.value))
  {
    hide RelocateData, IndexAt, OffsetAt, Wrap, WordAt, DataWord;
    if n == 0 {
      NothingForWords(mem, address, data, bytes);
    } else {
      DataPhase(mem, address, n - 1, data, bytes);
      DataStep(mem, address, n - 1, data, bytes);
      var before, r := RelocateData(mem, address, n - 1, data, bytes), RelocateData(mem, address, n, data, bytes);
      if r.Some? {
        forall w | 0 <= w && 4 * w + 4 <= |bytes| ensures DataWord(mem, address, n, data, bytes, w, r.value) {
          if w != IndexAt(mem, address, n - 1) {
            WordKept(before.value, r.value, 4 * w);
          }
          DataWordMore(mem, address, n - 1, data, bytes, w, before.value, r.value);
        }
      }
    }
  }

  lemma NothingForWords(mem: Memory, address: int, data: Word, bytes: seq<Byte>)
    ensures RelocateData(mem, address, 0, data, bytes) == Some(bytes)
    ensures forall w :: 0 <= w && 4 * w + 4 <= |bytes| ==> DataWord(mem, address, 0, data, bytes, w, bytes)
  {
  }

  // ---------- Errors

  lemma CookieBytes(mem: Memory, base: int)
    ensures HasCookie(mem, base) <==>
      mem(base) == 'M' as int && mem(base + 1) == 'S' as int && mem(base + 2) == 'D' as int && mem(base + 3) == 'L' as int
  {
    var s := Slice(mem, base, 4);
    assert s[0] == mem(base + 0) && s == [s[0], s[1], s[2], s[3]];
  }

  /** Each of the loader's errors, and when it is the one reported. */
  lemma LoadErrors(mem: Memory, base: Word, copyText: bool, entries: seq<SymbolAddress>, heap: Heap)
    ensures var o := Load(mem, base, copyText, entries, heap);
      && (o == Failure(CookieValidationFailure) <==> !HasCookie(mem, base))
      && (o == Failure(TextAllocationFailure) <==> HasCookie(mem, base) && copyText && heap.text.None?)
      && (o == Failure(DataAllocationFailure) <==>
            HasCookie(mem, base) && (copyText ==> heap.text.Some?) && heap.data.None?)
      && (o == Failure(LotAllocationFailure) <==>
            HasCookie(mem, base) && (copyText ==> heap.text.Some?) && heap.data.Some? && heap.lot.None?)
  {
    hide HasCookie, ReadHeader, CodeAddress, InitialData, Slice, StartAddress, FillExternals, FillLocals, RelocateData, FreshLot;
  }

  /** With memory enough, the external error is reported iff some symbol is not listed and no store missed the LOT. */
  lemma ExternalError(mem: Memory, base: Word, copyText: bool, entries: seq<SymbolAddress>, heap: Heap)
    requires HasCookie(mem, base) && (copyText ==> heap.text.Some?) && heap.data.Some? && heap.lot.Some?
    ensures var h, table := ReadHeader(mem, base), base + 24;
      Load(mem, base, copyText, entries, heap) == Failure(ExternalRelocationFailure) <==>
      && (exists k :: 0 <= k < h.externalRelocations && !Lists(entries, CodeAt(mem, table, k)))
      && (forall k :: 0 <= k < h.externalRelocations && Lists(entries, CodeAt(mem, table, k)) ==>
            IndexAt(mem, table, k) < h.externalRelocations + h.localRelocations)
  {
    hide HasCookie, ReadHeader, CodeAddress, InitialData, Slice, StartAddress, FillExternals, FillLocals, RelocateData, IndexAt,
      CodeAt, Lists, ExternalSlot;
    var h := ReadHeader(mem, base);
    ExternalPhase(mem, base + 24, h.externalRelocations, entries, FreshLot(h, heap.junk));
  }

  // ---------- Ranges

  /** A range holds the addresses from its text's first byte to its last, and none if they wrap around. */
  lemma InRangeIff(r: Range, address: Word)
    ensures InRange(r, address) <==> r.text <= address < r.text + r.size && r.text + r.size < 0x1_0000_0000
  {
  }

  lemma {:induction false} LotOfNone(ranges: seq<Range>, address: Word)
    requires forall j :: 0 <= j < |ranges| ==> !InRange(ranges[j], address)
    ensures LotAt(ranges, address) == 0xffff_ffff
  {
    if ranges != [] {
      LotOfNone(ranges[1..], address);
    }
  }

  /** A module that loads leaves the range of its own text, with its own LOT. */
  lemma LoadedRange(mem: Memory, base: Word, copyText: bool, entries: seq<SymbolAddress>, heap: Heap)
    requires Load(mem, base, copyText, entries, heap).Success?
    ensures var h, loaded := ReadHeader(mem, base), Load(mem, base, copyText, entries, heap).loaded;
      && |loaded.textBytes| == h.codeSize && |loaded.lot| == h.externalRelocations + h.localRelocations
      && RangeLeft(base, h, copyText, heap) == Range(loaded.text, h.codeSize, loaded.lotAddress)
  {
    hide HasCookie, ReadHeader, CodeAddress, InitialData, StartAddress, FillExternals, FillLocals, RelocateData, ExternalSlot,
      LocalSlot;
    var h := ReadHeader(mem, base);
    ExternalPhase(mem, RelocationsAddress(base), h.externalRelocations, entries, FreshLot(h, heap.junk));
    var lot := FillExternals(mem, RelocationsAddress(base), h.externalRelocations, entries, FreshLot(h, heap.junk)).lot;
    var loaded := Load(mem, base, copyText, entries, heap).loaded;
    LocalPhase(mem, LocalRelocationsAddress(base, h), h.localRelocations, loaded.text, loaded.data, lot);
  }

  /** Without room for its text a module leaves address zero, and without having got as far as its LOT none. */
  lemma RejectedRange(base: Word, h: Header, copyText: bool, heap: Heap)
    ensures copyText && heap.text.None? ==> RangeLeft(base, h, copyText, heap) == Range(0, h.codeSize, 0)
    ensures heap.data.None? || heap.lot.None? ==> RangeLeft(base, h, copyText, heap).lot == 0
    ensures !copyText ==> RangeLeft(base, h, copyText, heap).text == Wrap(CodeAddress(base, h))
    ensures copyText && heap.text.Some? ==> RangeLeft(base, h, copyText, heap).text == heap.text.value
  {
  }
}
