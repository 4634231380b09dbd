/** The instrument extractor for Westwood ADL music files (Dune II /
    Kyrandia 1) and its conversion of each 11-byte ADL instrument into a
    12-byte HSC .INS instrument. */
module Adl2Ins {
  import opened Wrappers

  // ---------------------------------------------------------------------
  // Layout of the index block at the start of an ADL file
  // ---------------------------------------------------------------------

  const PrimaryIndexCount: nat := 120  // song index bytes
  const TrackPointerCount: nat := 250  // 16-bit entries
  const InstrPointerCount: nat := 250  // 16-bit entries

  /** Pointers are relative to the end of the song index block. */
  const PrimaryBlockSize: nat := PrimaryIndexCount

  const TrackPointerTableOffset: nat := PrimaryBlockSize
  const InstrPointerTableOffset: nat := TrackPointerTableOffset + TrackPointerCount * 2

  const AdlRecordSize: nat := 11
  const HscRecordSize: nat := 12

  /** The two pointer values that mark an empty slot. */
  predicate IsSentinel(ptr: nat) {
    ptr == 0 || ptr == 0xFFFF
  }

  lemma TableLayout()
    ensures TrackPointerTableOffset == 0x78
    ensures InstrPointerTableOffset == 0x26C
    ensures InstrPointerTableOffset + InstrPointerCount * 2 == 1120
  {
  }

  // ---------------------------------------------------------------------
  // Little-endian 16-bit reads
  // ---------------------------------------------------------------------

  /** The 16-bit little-endian value at `offset`, or 0xFFFF when fewer than
      two bytes remain. The source combines the bytes with `|` and `<<`;
      since the low byte is below 256 that is the sum written here. */
  function ReadLe16(data: seq<byte>, offset: nat): (r: nat)
    ensures r < 0x1_0000
    ensures offset + 2 > |data| ==> r == 0xFFFF
  {
    if offset + 2 > |data| then 0xFFFF else data[offset] as nat + data[offset + 1] as nat * 0x100
  }

  /** Within bounds, the byte at `offset` is the low half of the value and
      the byte after it the high half. */
  lemma ReadLe16Halves(data: seq<byte>, offset: nat)
    requires offset + 2 <= |data|
    ensures ReadLe16(data, offset) % 0x100 == data[offset]
    ensures ReadLe16(data, offset) / 0x100 == data[offset + 1]
  {
  }

  /** The two bytes that store `v` little-endian: the inverse of ReadLe16. */
  function Le16Bytes(v: nat): (b: seq<byte>)
    requires v < 0x1_0000
    ensures |b| == 2
  {
    [v % 0x100, v / 0x100]
  }

  lemma ReadLe16RoundTrip(front: seq<byte>, v: nat, back: seq<byte>)
    requires v < 0x1_0000
    ensures ReadLe16(front + Le16Bytes(v) + back, |front|) == v
  {
    var data := front + Le16Bytes(v) + back;
    assert data[|front|] == v % 0x100 && data[|front| + 1] == v / 0x100;
  }

  // ---------------------------------------------------------------------
  // ADL -> HSC instrument conversion
  // ---------------------------------------------------------------------

  /** HSC byte k (k < 11) is ADL byte HscSourceField[k]; HSC byte 11
      (finetune / slide) has no ADL counterpart and is 0. */
  const HscSourceField: seq<nat> := [1, 0, 6, 5, 8, 7, 10, 9, 2, 4, 3]

  /** The mapping as the module documentation states it, in the other
      direction: ADL byte i goes to HSC byte AdlTargetField[i]. */
  const AdlTargetField: seq<nat> := [1, 0, 8, 10, 9, 3, 2, 5, 4, 7, 6]

  /** The HSC record made from an 11-byte ADL record. */
  function HscRecord(adl: seq<byte>): (h: seq<byte>)
    requires |adl| == AdlRecordSize
    ensures |h| == HscRecordSize
    ensures h[AdlRecordSize] == 0
  {
    seq(HscRecordSize, k requires 0 <= k < HscRecordSize =>
      if k < AdlRecordSize then adl[HscSourceField[k]] else 0)
  }

  /** Reads the ADL record back out of an HSC record, following the
      documented ADL -> HSC mapping. */
  function AdlRecord(hsc: seq<byte>): (a: seq<byte>)
    requires |hsc| == HscRecordSize
    ensures |a| == AdlRecordSize
  {
    seq(AdlRecordSize, i requires 0 <= i < AdlRecordSize => hsc[AdlTargetField[i]])
  }

  datatype ConvertError = InvalidLength

  /** Builds the HSC record in a fresh 12-byte buffer, one field at a time. */
  method AdlToHscIns(adl: seq<byte>) returns (r: Result<seq<byte>, ConvertError>)
    ensures r.Err? <==> |adl| != AdlRecordSize
    ensures r.Err? ==> r.error == InvalidLength
    ensures r.Ok? ==> |adl| == AdlRecordSize && r.value == HscRecord(adl)
  {
    if |adl| != 11 {
      return Err(InvalidLength);
    }
    var h := new byte[12];
    h[0] := adl[1];    // carrier characteristic (0x23)
    h[1] := adl[0];    // modulator characteristic (0x20)
    h[2] := adl[6];    // carrier level (0x43)
    h[3] := adl[5];    // modulator level (0x40)
    h[4] := adl[8];    // carrier attack/decay (0x63)
    h[5] := adl[7];    // modulator attack/decay (0x60)
    h[6] := adl[10];   // carrier sustain/release (0x83)
    h[7] := adl[9];    // modulator sustain/release (0x80)
    h[8] := adl[2];    // feedback / algorithm (0xC0)
    h[9] := adl[4];    // carrier waveform (0xE3)
    h[10] := adl[3];   // modulator waveform (0xE0)
    h[11] := 0;        // finetune / slide
    return Ok(h[..]);
  }

  /** The conversion follows the documented ADL -> HSC table and is
      lossless: each ADL byte lands in exactly one HSC position. */
  lemma HscRecordMatchesDocumentedMapping(adl: seq<byte>)
    requires |adl| == AdlRecordSize
    ensures forall i :: 0 <= i < AdlRecordSize ==> HscRecord(adl)[AdlTargetField[i]] == adl[i]
    ensures AdlRecord(HscRecord(adl)) == adl
  {
    var h := HscRecord(adl);
    assert h[1] == adl[0] && h[0] == adl[1] && h[8] == adl[2] && h[10] == adl[3];
    assert h[9] == adl[4] && h[3] == adl[5] && h[2] == adl[6] && h[5] == adl[7];
    assert h[4] == adl[8] && h[7] == adl[9] && h[6] == adl[10];
  }

  /** The two field tables are inverse permutations of the positions
      0..10: every ADL field has exactly one HSC position and vice versa. */
  lemma FieldTablesAreInverse()
    ensures forall i :: 0 <= i < AdlRecordSize ==>
      AdlTargetField[i] < AdlRecordSize && HscSourceField[AdlTargetField[i]] == i
    ensures forall k :: 0 <= k < AdlRecordSize ==>
      HscSourceField[k] < AdlRecordSize && AdlTargetField[HscSourceField[k]] == k
  {
  }

  /** Every 12-byte HSC record whose last byte is zero comes from exactly one
      ADL record: the conversion is a bijection onto such records. */
  lemma HscRecordOnto(hsc: seq<byte>)
    requires |hsc| == HscRecordSize && hsc[AdlRecordSize] == 0
    ensures HscRecord(AdlRecord(hsc)) == hsc
  {
    var h := HscRecord(AdlRecord(hsc));
    FieldTablesAreInverse();
    forall k | 0 <= k < HscRecordSize
      ensures h[k] == hsc[k]
    {
      if k < AdlRecordSize {
        assert h[k] == AdlRecord(hsc)[HscSourceField[k]];
      }
    }
  }

  lemma HscRecordFixture()
    ensures HscRecord([0, 1, 2, 3, 4, 5, 6, 7, 8, 9, 10]) == [1, 0, 6, 5, 8, 7, 10, 9, 2, 4, 3, 0]
  {
  }
  // ---------------------------------------------------------------------
  // Instrument listing: pointer resolution, bounds, de-duplication, ids
  // ---------------------------------------------------------------------

  /** One listed instrument: its sequential id, the pointer slot it came
      from, the relative pointer, the absolute offset and the 11 raw bytes. */
  datatype Instrument = Instrument(id: nat, slot: nat, rel: nat, off: nat, raw: seq<byte>)

  /** What one instrument pointer slot holds, before duplicates are
      considered. */
  datatype SlotPointer =
    | Unreadable                          // the slot lies past the end: the scan stops
    | Sentinel                            // pointer 0 or 0xFFFF
    | Dangling(rel: nat, off: nat)        // the 11-byte record would run past the end
    | Record(rel: nat, off: nat, raw: seq<byte>)

  function PointerOffset(slot: nat): nat {
    InstrPointerTableOffset + slot * 2
  }

  /** Slot `slot` holds a usable pointer to a complete record at `off`. */
  predicate Resolves(data: seq<byte>, slot: nat, off: nat) {
    && PointerOffset(slot) + 2 <= |data|
    && var rel := ReadLe16(data, PointerOffset(slot));
    && !IsSentinel(rel)
    && off == PrimaryBlockSize + rel
    && off + AdlRecordSize <= |data|
  }

  /** A listed instrument is consistent with the buffer it came from. */
  predicate Describes(data: seq<byte>, inst: Instrument) {
    && inst.slot < InstrPointerCount
    && PointerOffset(inst.slot) + 2 <= |data|
    && inst.rel == ReadLe16(data, PointerOffset(inst.slot))
    && !IsSentinel(inst.rel)
    && inst.off == PrimaryBlockSize + inst.rel
    && inst.off + AdlRecordSize <= |data|
    && inst.raw == data[inst.off..inst.off + AdlRecordSize]
  }

  /** Reads pointer slot `slot`, applying the tests of the loop in their
      order: the slot must be readable, the pointer must not be a sentinel,
      and the 11-byte record it points to must fit. */
  function ReadPointer(data: seq<byte>, slot: nat): (p: SlotPointer)
    ensures p.Unreadable? <==> PointerOffset(slot) + 2 > |data|
    ensures p.Record? ==> && Resolves(data, slot, p.off)
                          && p.rel == ReadLe16(data, PointerOffset(slot))
                          && p.raw == data[p.off..p.off + AdlRecordSize]
  {
    var ptrOff := PointerOffset(slot);
    if ptrOff + 2 > |data| then Unreadable
    else
      var rel := ReadLe16(data, ptrOff);
      if IsSentinel(rel) then Sentinel
      else
        var off := PrimaryBlockSize + rel;
        if off + AdlRecordSize > |data| then Dangling(rel, off)
        else Record(rel, off, data[off..off + AdlRecordSize])
  }

  /** A slot holds a record at `off` exactly when it resolves to `off`. */
  lemma ReadPointerResolves(data: seq<byte>, slot: nat, off: nat)
    ensures ReadPointer(data, slot).Record? && ReadPointer(data, slot).off == off
            <==> Resolves(data, slot, off)
  {
  }

  /** Once a slot lies past the end of the buffer, so does every later slot:
      stopping the loop there skips only slots that would all be unreadable. */
  lemma UnreadableIsFinal(data: seq<byte>, s: nat, t: nat)
    requires s <= t && ReadPointer(data, s).Unreadable?
    ensures ReadPointer(data, t).Unreadable?
  {
  }

  /** The instrument pointer table of a buffer, slot by slot. */
  function PointerTable(data: seq<byte>): seq<SlotPointer> {
    seq(InstrPointerCount, s requires 0 <= s => ReadPointer(data, s))
  }

  /** The instruments listed from slot `slot` of `table` on, when the offsets
      in `seen` are already taken and the next id is `nextId`. A record whose
      offset is taken is a duplicate and is skipped. */
  function Scan(table: seq<SlotPointer>, slot: nat, seen: set<nat>, nextId: nat): seq<Instrument>
    requires slot <= |table|
    decreases |table| - slot
  {
    if slot == |table| then []
    else
      match table[slot]
      case Unreadable => []
      case Record(rel, off, raw) =>
        if off in seen then Scan(table, slot + 1, seen, nextId)
        else [Instrument(nextId, slot, rel, off, raw)] + Scan(table, slot + 1, seen + {off}, nextId + 1)
      case _ => Scan(table, slot + 1, seen, nextId)
  }

  /** Whether slot `slot` of `table` lists a new instrument given `seen`. */
  predicate Lists(table: seq<SlotPointer>, slot: nat, seen: set<nat>)
    requires slot < |table|
  {
    table[slot].Record? && table[slot].off !in seen
  }

  /** The set of absolute offsets of a listing. */
  function Offsets(insts: seq<Instrument>): set<nat> {
    set k | 0 <= k < |insts| :: insts[k].off
  }

  /** One step of the scan over a slot that lists nothing and does not stop
      it: a sentinel, a record past the end, or an offset already seen. */
  lemma ScanSkip(table: seq<SlotPointer>, slot: nat, seen: set<nat>, nextId: nat)
    requires slot < |table| && !table[slot].Unreadable? && !Lists(table, slot, seen)
    ensures Scan(table, slot, seen, nextId) == Scan(table, slot + 1, seen, nextId)
  {
  }

  /** One step of the scan over a slot that lists a new instrument. */
  lemma ScanFound(table: seq<SlotPointer>, slot: nat, seen: set<nat>, nextId: nat)
    requires slot < |table| && Lists(table, slot, seen)
    ensures Scan(table, slot, seen, nextId)
         == [Instrument(nextId, slot, table[slot].rel, table[slot].off, table[slot].raw)]
            + Scan(table, slot + 1, seen + {table[slot].off}, nextId + 1)
  {
  }

  /** The scan ends after the last slot and at the first unreadable one. */
  lemma ScanEnd(table: seq<SlotPointer>, slot: nat, seen: set<nat>, nextId: nat)
    requires slot <= |table|
    requires slot == |table| || table[slot].Unreadable?
    ensures Scan(table, slot, seen, nextId) == []
  {
  }

  lemma OffsetsAppend(insts: seq<Instrument>, inst: Instrument)
    ensures Offsets(insts + [inst]) == Offsets(insts) + {inst.off}
  {
    var all := insts + [inst];
    forall x | x in Offsets(all) ensures x in Offsets(insts) + {inst.off} {
      var k :| 0 <= k < |all| && all[k].off == x;
      if k < |insts| { assert all[k] == insts[k]; }
    }
    forall x | x in Offsets(insts) ensures x in Offsets(all) {
      var k :| 0 <= k < |insts| && insts[k].off == x;
      assert all[k] == insts[k];
    }
    assert all[|insts|] == inst;
  }

  /** The scan lists at most one instrument per remaining slot. */
  lemma {:induction false} ScanLength(table: seq<SlotPointer>, slot: nat, seen: set<nat>, nextId: nat)
    requires slot <= |table|
    ensures |Scan(table, slot, seen, nextId)| <= |table| - slot
    decreases |table| - slot
  {
    if slot == |table| || table[slot].Unreadable? {
      ScanEnd(table, slot, seen, nextId);
    } else if Lists(table, slot, seen) {
      ScanFound(table, slot, seen, nextId);
      ScanLength(table, slot + 1, seen + {table[slot].off}, nextId + 1);
    } else {
      ScanSkip(table, slot, seen, nextId);
      ScanLength(table, slot + 1, seen, nextId);
    }
  }

  /** The `k`-th instrument the scan lists has id `nextId + k`, is the record
      its slot holds, and its offset is not in `seen`. */
  lemma {:induction false} ScanAt(table: seq<SlotPointer>, slot: nat, seen: set<nat>, nextId: nat, k: nat)
    requires slot <= |table|
    requires k < |Scan(table, slot, seen, nextId)|
    ensures var inst := Scan(table, slot, seen, nextId)[k];
      && inst.id == nextId + k
      && slot <= inst.slot < |table|
      && table[inst.slot] == Record(inst.rel, inst.off, inst.raw)
      && inst.off !in seen
    decreases |table| - slot
  {
    var r := Scan(table, slot, seen, nextId);
    if slot == |table| || table[slot].Unreadable? {
      ScanEnd(table, slot, seen, nextId);
    } else if Lists(table, slot, seen) {
      ScanFound(table, slot, seen, nextId);
      var p := table[slot];
      if k == 0 {
        assert r[0] == Instrument(nextId, slot, p.rel, p.off, p.raw);
      } else {
        var tail := Scan(table, slot + 1, seen + {p.off}, nextId + 1);
        assert r[k] == tail[k - 1];
        ScanAt(table, slot + 1, seen + {p.off}, nextId + 1, k - 1);
      }
    } else {
      ScanSkip(table, slot, seen, nextId);
      ScanAt(table, slot + 1, seen, nextId, k);
    }
  }

  /** Of two instruments the scan lists, the earlier one comes from an
      earlier slot and a different offset. */
  lemma {:induction false} ScanOrdered(table: seq<SlotPointer>, slot: nat, seen: set<nat>, nextId: nat, j: nat, k: nat)
    requires slot <= |table|
    requires j < k < |Scan(table, slot, seen, nextId)|
    ensures Scan(table, slot, seen, nextId)[j].slot < Scan(table, slot, seen, nextId)[k].slot
    ensures Scan(table, slot, seen, nextId)[j].off != Scan(table, slot, seen, nextId)[k].off
    decreases |table| - slot
  {
    var r := Scan(table, slot, seen, nextId);
    if slot == |table| || table[slot].Unreadable? {
      ScanEnd(table, slot, seen, nextId);
    } else if Lists(table, slot, seen) {
      ScanFound(table, slot, seen, nextId);
      var seen' := seen + {table[slot].off};
      var tail := Scan(table, slot + 1, seen', nextId + 1);
      assert r[k] == tail[k - 1];
      if j == 0 {
        ScanAt(table, slot + 1, seen', nextId + 1, k - 1);
      } else {
        assert r[j] == tail[j - 1];
        ScanOrdered(table, slot + 1, seen', nextId + 1, j - 1, k - 1);
      }
    } else {
      ScanSkip(table, slot, seen, nextId);
      ScanOrdered(table, slot + 1, seen, nextId, j, k);
    }
  }

  /** Every record whose offset is not yet taken gets listed, by its own slot
      or by an earlier one holding the same offset, unless an unreadable slot
      ends the scan before it. */
  lemma {:induction false} ScanComplete(table: seq<SlotPointer>, slot: nat, seen: set<nat>, nextId: nat, s: nat)
    requires slot <= s < |table|
    requires table[s].Record? && table[s].off !in seen
    requires forall t :: slot <= t < s ==> !table[t].Unreadable?
    ensures exists k :: 0 <= k < |Scan(table, slot, seen, nextId)|
                        && Scan(table, slot, seen, nextId)[k].off == table[s].off
                        && Scan(table, slot, seen, nextId)[k].slot <= s
    decreases s - slot
  {
    var r := Scan(table, slot, seen, nextId);
    var off := table[s].off;
    if Lists(table, slot, seen) {
      ScanFound(table, slot, seen, nextId);
      if table[slot].off == off {
        assert r[0].off == off && r[0].slot <= s;
      } else {
        var tail := Scan(table, slot + 1, seen + {table[slot].off}, nextId + 1);
        ScanComplete(table, slot + 1, seen + {table[slot].off}, nextId + 1, s);
        var k :| 0 <= k < |tail| && tail[k].off == off && tail[k].slot <= s;
        assert r[k + 1] == tail[k];
      }
    } else {
      assert slot < s && !table[slot].Unreadable?;
      ScanSkip(table, slot, seen, nextId);
      ScanComplete(table, slot + 1, seen, nextId, s);
    }
  }

  /** Slots that all hold sentinels list nothing. */
  lemma {:induction false} ScanSentinels(table: seq<SlotPointer>, slot: nat, seen: set<nat>, nextId: nat)
    requires slot <= |table|
    requires forall s :: slot <= s < |table| ==> table[s] == Sentinel
    ensures Scan(table, slot, seen, nextId) == []
    decreases |table| - slot
  {
    if slot < |table| {
      ScanSkip(table, slot, seen, nextId);
      ScanSentinels(table, slot + 1, seen, nextId);
    }
  }

  /** Everything `list_instruments` lists for a buffer, in order. */
  function Listing(data: seq<byte>): seq<Instrument> {
    Scan(PointerTable(data), 0, {}, 0)
  }

  /** At most one instrument per pointer slot; each is read from the buffer
      as its slot and pointer say; ids count 0, 1, 2, ...; slots increase;
      no offset is listed twice. */
  lemma ListingWellFormed(data: seq<byte>)
    ensures |Listing(data)| <= InstrPointerCount
    ensures forall k :: 0 <= k < |Listing(data)| ==> Describes(data, Listing(data)[k]) && Listing(data)[k].id == k
    ensures forall j, k :: 0 <= j < k < |Listing(data)| ==>
      Listing(data)[j].slot < Listing(data)[k].slot && Listing(data)[j].off != Listing(data)[k].off
  {
    var table := PointerTable(data);
    var r := Scan(table, 0, {}, 0);
    ScanLength(table, 0, {}, 0);
    forall k | 0 <= k < |r| ensures Describes(data, r[k]) && r[k].id == k {
      ScanAt(table, 0, {}, 0, k);
      assert table[r[k].slot] == ReadPointer(data, r[k].slot);
    }
    forall j, k | 0 <= j < k < |r| ensures r[j].slot < r[k].slot && r[j].off != r[k].off {
      ScanOrdered(table, 0, {}, 0, j, k);
    }
  }

  /** De-duplication, first half: every offset some slot resolves to is
      listed, under that slot or an earlier one. */
  lemma ListingComplete(data: seq<byte>, s: nat, off: nat)
    requires s < InstrPointerCount && Resolves(data, s, off)
    ensures exists k :: 0 <= k < |Listing(data)| && Listing(data)[k].off == off && Listing(data)[k].slot <= s
  {
    var table := PointerTable(data);
    ReadPointerResolves(data, s, off);
    assert table[s] == ReadPointer(data, s);
    forall t | 0 <= t < s ensures !table[t].Unreadable? {
      assert table[t] == ReadPointer(data, t);
    }
    ScanComplete(table, 0, {}, 0, s);
    assert Listing(data) == Scan(table, 0, {}, 0);
  }

  /** De-duplication, second half: each listed instrument comes from the
      first slot that resolves to its offset; later slots with the same
      offset add nothing. */
  lemma ListingFirstSlot(data: seq<byte>, k: nat, s: nat)
    requires k < |Listing(data)|
    ensures Resolves(data, s, Listing(data)[k].off) ==> Listing(data)[k].slot <= s
  {
    var l := Listing(data);
    ListingWellFormed(data);
    if s < InstrPointerCount && Resolves(data, s, l[k].off) {
      ListingComplete(data, s, l[k].off);
      var k' :| 0 <= k' < |l| && l[k'].off == l[k].off && l[k'].slot <= s;
      assert k' == k;
    }
  }

  /** The scan stops at the first unreadable pointer slot: no instrument
      comes from a slot at or after it, and a buffer too short to hold
      pointer slot 0 lists nothing. */
  lemma ListingStopsAtShortTable(data: seq<byte>, s: nat)
    requires PointerOffset(s) + 2 > |data|
    ensures forall k :: 0 <= k < |Listing(data)| ==> Listing(data)[k].slot < s
    ensures s == 0 ==> Listing(data) == []
  {
    ListingWellFormed(data);
  }

  function Zeros(n: nat): (z: seq<byte>)
    ensures |z| == n && forall i :: 0 <= i < n ==> z[i] == 0
  {
    seq(n, _ => 0)
  }

  /** A zeroed index block whose only instrument pointer (slot 0) points just
      past the index block, followed by an 11-byte record `rec`, lists
      exactly that record. */
  lemma OneInstrumentScenario(rec: seq<byte>)
    requires |rec| == AdlRecordSize
    ensures var data := Zeros(InstrPointerTableOffset) + Le16Bytes(1000) + Zeros(498) + rec;
      Listing(data) == [Instrument(0, 0, 1000, 1120, rec)]
  {
    var data := Zeros(InstrPointerTableOffset) + Le16Bytes(1000) + Zeros(498) + rec;
    var table := PointerTable(data);
    assert |data| == 1131;
    ReadLe16RoundTrip(Zeros(InstrPointerTableOffset), 1000, Zeros(498) + rec);
    assert Zeros(InstrPointerTableOffset) + Le16Bytes(1000) + (Zeros(498) + rec) == data;
    assert data[1120..1131] == rec;
    assert table[0] == ReadPointer(data, 0) == Record(1000, 1120, rec);
    forall s | 1 <= s < InstrPointerCount ensures table[s] == Sentinel {
      assert table[s] == ReadPointer(data, s);
      assert data[PointerOffset(s)] == 0 && data[PointerOffset(s) + 1] == 0;
    }
    ScanSentinels(table, 1, {} + {1120}, 1);
    ScanFound(table, 0, {}, 0);
  }

  // ---------------------------------------------------------------------
  // Export file names and contents
  // ---------------------------------------------------------------------

  function DigitChar(d: nat): (c: char)
    requires d < 10
    ensures '0' <= c <= '9' && c as int - '0' as int == d
  {
    ('0' as int + d) as char
  }

  /** The decimal representation of `n`, without leading zeros. */
  function Decimal(n: nat): (s: string)
    ensures |s| >= 1 && forall i :: 0 <= i < |s| ==> '0' <= s[i] <= '9'
  {
    if n < 10 then [DigitChar(n)] else Decimal(n / 10) + [DigitChar(n % 10)]
  }

  /** The value of a string of decimal digits. */
  function DecimalValue(s: string): nat
    requires forall i :: 0 <= i < |s| ==> '0' <= s[i] <= '9'
  {
    if s == [] then 0 else DecimalValue(s[..|s| - 1]) * 10 + (s[|s| - 1] as int - '0' as int)
  }

  lemma {:induction false} DecimalRoundTrip(n: nat)
    ensures DecimalValue(Decimal(n)) == n
  {
    if n >= 10 {
      var s := Decimal(n);
      assert s[..|s| - 1] == Decimal(n / 10);
      DecimalRoundTrip(n / 10);
    }
  }

  /** `f"{id:02d}"`: the decimal id, zero-padded to at least two digits. */
  function ZeroPad2(id: nat): (s: string)
    ensures |s| >= 2 && forall i :: 0 <= i < |s| ==> '0' <= s[i] <= '9'
  {
    if id < 10 then ['0'] + Decimal(id) else Decimal(id)
  }

  function InsFileName(id: nat): string {
    ZeroPad2(id) + ".INS"
  }

  /** The id can be read back from the file name, so two instruments never
      share an export file. */
  lemma InsFileNameRoundTrip(id: nat)
    ensures |InsFileName(id)| >= 6
    ensures var stem := InsFileName(id)[..|InsFileName(id)| - 4];
      (forall i :: 0 <= i < |stem| ==> '0' <= stem[i] <= '9') && DecimalValue(stem) == id
  {
    var stem := InsFileName(id)[..|InsFileName(id)| - 4];
    assert stem == ZeroPad2(id);
    if id < 10 {
      assert DecimalValue(stem) == DecimalValue(['0']) * 10 + id;
    } else {
      DecimalRoundTrip(id);
    }
  }

  lemma InsFileNameInjective(a: nat, b: nat)
    requires a != b
    ensures InsFileName(a) != InsFileName(b)
  {
    InsFileNameRoundTrip(a);
    InsFileNameRoundTrip(b);
  }

  /** One `.INS` file the export would write. */
  datatype InsFile = InsFile(name: string, contents: seq<byte>)

  function ExportOf(inst: Instrument): InsFile
    requires |inst.raw| == AdlRecordSize
  {
    InsFile(InsFileName(inst.id), HscRecord(inst.raw))
  }

  /** The export files of a listing have pairwise distinct names. */
  lemma ExportNamesDistinct(data: seq<byte>, j: nat, k: nat)
    requires j < k < |Listing(data)|
    ensures InsFileName(Listing(data)[j].id) != InsFileName(Listing(data)[k].id)
  {
    ListingWellFormed(data);
    InsFileNameInjective(j, k);
  }

  /** `files` holds, in order, the export file of each listed instrument. */
  predicate ExportsOf(listing: seq<Instrument>, files: seq<InsFile>) {
    && |files| == |listing|
    && forall k :: 0 <= k < |files| ==>
         |listing[k].raw| == AdlRecordSize && files[k] == ExportOf(listing[k])
  }

  lemma ExportsAppend(listing: seq<Instrument>, files: seq<InsFile>, inst: Instrument)
    requires ExportsOf(listing, files) && |inst.raw| == AdlRecordSize
    ensures ExportsOf(listing + [inst], files + [ExportOf(inst)])
  {
    var l, f := listing + [inst], files + [ExportOf(inst)];
    forall k | 0 <= k < |f| ensures |l[k].raw| == AdlRecordSize && f[k] == ExportOf(l[k]) {
      if k < |files| {
        assert l[k] == listing[k] && f[k] == files[k];
      }
    }
  }

  /** One step of the loop over a slot that lists a new instrument: the
      instrument moves from the rest of the scan to the listing. */
  lemma ListStepFound(table: seq<SlotPointer>, slot: nat, listing: seq<Instrument>, seen: set<nat>)
    requires slot < |table| && Lists(table, slot, seen)
    ensures var p := table[slot];
      listing + Scan(table, slot, seen, |listing|)
      == (listing + [Instrument(|listing|, slot, p.rel, p.off, p.raw)])
         + Scan(table, slot + 1, seen + {p.off}, |listing| + 1)
  {
    ScanFound(table, slot, seen, |listing|);
    var p := table[slot];
    AppendAssoc(listing, Instrument(|listing|, slot, p.rel, p.off, p.raw),
                Scan(table, slot + 1, seen + {p.off}, |listing| + 1));
  }

  lemma AppendAssoc<T>(front: seq<T>, x: T, back: seq<T>)
    ensures (front + [x]) + back == front + ([x] + back)
  {
  }

  /** The loop of `list_instruments`: walks the 250 instrument pointer slots,
      keeping the set of offsets seen and the running instrument id. It
      returns the listed instruments, the files an export writes (none when
      `doExport` is false), the final seen set and instrument count. */
  method ListInstruments(data: seq<byte>, doExport: bool)
    returns (listing: seq<Instrument>, files: seq<InsFile>, seen: set<nat>, count: nat)
    ensures listing == Listing(data)
    ensures count == |listing|
    ensures seen == Offsets(listing)
    ensures doExport ==> ExportsOf(listing, files)
    ensures !doExport ==> files == []
  {
    listing, files, seen, count := [], [], {}, 0;
    ghost var table := PointerTable(data);
    ghost var target := Scan(table, 0, {}, 0);
    for i := 0 to InstrPointerCount
      invariant listing + Scan(table, i, seen, count) == target
      invariant count == |listing|
      invariant seen == Offsets(listing)
      invariant doExport ==> ExportsOf(listing, files)
      invariant !doExport ==> files == []
    {
      assert table[i] == ReadPointer(data, i);
      var ptrOff := InstrPointerTableOffset + i * 2;
      if ptrOff + 2 > |data| {
        break;
      }
      var relPtr := ReadLe16(data, ptrOff);
      if relPtr == 0 || relPtr == 0xFFFF {
        assert table[i] == Sentinel;
        ScanSkip(table, i, seen, count);
        continue;
      }
      var absOff := PrimaryBlockSize + relPtr;
      // Must fit 11 bytes
      if absOff + AdlRecordSize > |data| {
        assert table[i] == Dangling(relPtr, absOff);
        ScanSkip(table, i, seen, count);
        continue;
      }
      // Skip duplicates (several pointers to the same instrument)
      var instBytes := data[absOff..absOff + AdlRecordSize];
      assert table[i] == Record(relPtr, absOff, instBytes);
      if absOff in seen {
        ScanSkip(table, i, seen, count);
        continue;
      }
      ListStepFound(table, i, listing, seen);
      var inst := Instrument(count, i, relPtr, absOff, instBytes);
      OffsetsAppend(listing, inst);
      seen := seen + {absOff};
      if doExport {
        var hsc := AdlToHscIns(instBytes);
        ExportsAppend(listing, files, inst);
        files := files + [InsFile(InsFileName(count), hsc.value)];
      }
      listing := listing + [inst];
      count := count + 1;
    }
    assert Listing(data) == target;
  }
}
