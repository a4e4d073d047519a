/** The partition table in the first sector of a device (client/psvemmc/SceMbr.h): packed structures, so a value is
    exactly its bytes. */
module Mbr {
  import opened Words
  import opened Wire

  const PARTITIONS: nat := 20
  const ENTRY: nat := 17
  const TABLE: nat := 0x50

  type Unk = s: seq<byte> | |s| == 5 witness [0, 0, 0, 0, 0]

  datatype PartitionEntry = PartitionEntry(partitionOffset: uint32, partitionSize: uint32, partitionCode: byte,
                                           partitionType: byte, partitionActive: byte, flags: byte, unk: Unk)

  function EncodeEntry(e: PartitionEntry): (b: seq<byte>)
    ensures |b| == ENTRY
  {
    Le32(e.partitionOffset) + Le32(e.partitionSize)
    + [e.partitionCode, e.partitionType, e.partitionActive, e.flags] + e.unk
  }

  function DecodeEntry(b: seq<byte>): PartitionEntry
    requires |b| == ENTRY
  {
    PartitionEntry(FromLe32(b[..4]), FromLe32(b[4..8]), b[8], b[9], b[10], b[11], b[12..])
  }

  lemma EntryRoundTrip(e: PartitionEntry)
    ensures DecodeEntry(EncodeEntry(e)) == e
  {
    var b := EncodeEntry(e);
    assert b[..4] == Le32(e.partitionOffset) && b[4..8] == Le32(e.partitionSize) && b[12..] == e.unk;
    Le32RoundTrip(e.partitionOffset);
    Le32RoundTrip(e.partitionSize);
  }

  lemma EntryBytes(b: seq<byte>)
    requires |b| == ENTRY
    ensures EncodeEntry(DecodeEntry(b)) == b
  {
    FromLe32RoundTrip(b[..4]);
    FromLe32RoundTrip(b[4..8]);
    assert b == b[..4] + b[4..8] + [b[8], b[9], b[10], b[11]] + b[12..];
  }

  function EncodeEntries(es: seq<PartitionEntry>): (b: seq<byte>)
    ensures |b| == ENTRY * |es|
  {
    if es == [] then [] else EncodeEntries(es[..|es| - 1]) + EncodeEntry(es[|es| - 1])
  }

  function DecodeEntries(b: seq<byte>, n: nat): (es: seq<PartitionEntry>)
    requires |b| == ENTRY * n
    ensures |es| == n
  {
    if n == 0 then [] else DecodeEntries(b[..ENTRY * (n - 1)], n - 1) + [DecodeEntry(b[ENTRY * (n - 1)..])]
  }

  lemma {:induction false} EntriesRoundTrip(es: seq<PartitionEntry>)
    ensures DecodeEntries(EncodeEntries(es), |es|) == es
  {
    if es != [] {
      var n := |es| - 1;
      EntriesRoundTrip(es[..n]);
      EntryRoundTrip(es[n]);
      assert EncodeEntries(es)[..ENTRY * n] == EncodeEntries(es[..n]);
      assert EncodeEntries(es)[ENTRY * n..] == EncodeEntry(es[n]);
    }
  }

  lemma {:induction false} EntriesBytes(b: seq<byte>, n: nat)
    requires |b| == ENTRY * n
    ensures EncodeEntries(DecodeEntries(b, n)) == b
  {
    if n > 0 {
      EntriesBytes(b[..ENTRY * (n - 1)], n - 1);
      EntryBytes(b[ENTRY * (n - 1)..]);
      var es := DecodeEntries(b, n);
      assert es[..n - 1] == DecodeEntries(b[..ENTRY * (n - 1)], n - 1);
    }
  }

  /** MBR: 32 characters, twelve words, the entries, 0x5A bytes and a 16-bit signature make up one sector. The
      block count and the ten words nothing is known about are kept as bytes. */
  datatype MasterBootRecord = MasterBootRecord(header: seq<byte>, version: uint32, words: seq<byte>,
                                               partitions: seq<PartitionEntry>, unkData: seq<byte>,
                                               signatureLow: byte, signatureHigh: byte) {
    predicate Valid() { |header| == 0x20 && |words| == 44 && |partitions| == PARTITIONS && |unkData| == 0x5A }
  }

  function Encode(m: MasterBootRecord): Sector
    requires m.Valid()
  {
    m.header + Le32(m.version) + m.words + EncodeEntries(m.partitions) + m.unkData + [m.signatureLow, m.signatureHigh]
  }

  function Parse(s: Sector): (m: MasterBootRecord)
    ensures m.Valid()
  {
    MasterBootRecord(s[..0x20], FromLe32(s[0x20..0x24]), s[0x24..TABLE], DecodeEntries(s[TABLE..0x1A4], PARTITIONS),
                     s[0x1A4..0x1FE], s[0x1FE], s[0x1FF])
  }

  /** The layout loses nothing and invents nothing: sectors and records correspond one to one. */
  lemma ParseEncodes(s: Sector)
    ensures Encode(Parse(s)) == s
  {
    FromLe32RoundTrip(s[0x20..0x24]);
    EntriesBytes(s[TABLE..0x1A4], PARTITIONS);
    assert s == s[..0x20] + s[0x20..0x24] + s[0x24..TABLE] + s[TABLE..0x1A4] + s[0x1A4..0x1FE] + [s[0x1FE], s[0x1FF]];
  }

  lemma EncodeParses(m: MasterBootRecord)
    requires m.Valid()
    ensures Parse(Encode(m)) == m
  {
    var s := Encode(m);
    Le32RoundTrip(m.version);
    EntriesRoundTrip(m.partitions);
    assert s[..0x20] == m.header && s[0x20..0x24] == Le32(m.version) && s[0x24..TABLE] == m.words;
    assert s[TABLE..0x1A4] == EncodeEntries(m.partitions) && s[0x1A4..0x1FE] == m.unkData;
  }

  /** "Sony Computer Entertainment Inc." */
  const SCE_HEADER: seq<byte> := [83, 111, 110, 121, 32, 67, 111, 109, 112, 117, 116, 101, 114, 32, 69, 110,
                                  116, 101, 114, 116, 97, 105, 110, 109, 101, 110, 116, 32, 73, 110, 99, 46]

  /** validateSceMbr. */
  predicate Validated(m: MasterBootRecord) {
    m.header == SCE_HEADER && m.version == 3 && m.signatureLow == 0x55 && m.signatureHigh == 0xAA
  }

  // ---------- the layout, byte by byte ----------

  lemma {:induction false} EntryAt(b: seq<byte>, n: nat, i: nat)
    requires |b| == ENTRY * n && i < n
    ensures ENTRY * i + ENTRY <= |b| && DecodeEntries(b, n)[i] == DecodeEntry(b[ENTRY * i..ENTRY * i + ENTRY])
  {
    if i < n - 1 {
      EntryAt(b[..ENTRY * (n - 1)], n - 1, i);
      assert b[..ENTRY * (n - 1)][ENTRY * i..ENTRY * i + ENTRY] == b[ENTRY * i..ENTRY * i + ENTRY];
    } else {
      assert b[ENTRY * i..] == b[ENTRY * i..ENTRY * i + ENTRY];
    }
  }

  lemma SliceOfSlice(s: seq<byte>, lo: nat, hi: nat, i: nat, j: nat)
    requires i <= j && lo + j <= hi <= |s|
    ensures s[lo..hi][i..j] == s[lo + i..lo + j]
  {
    forall k | 0 <= k < j - i
      ensures s[lo..hi][i..j][k] == s[lo + i..lo + j][k]
    {
      assert s[lo..hi][i + k] == s[lo + i + k];
    }
  }

  /** At which bytes of the sector the fields of a table entry lie: entry i starts at 0x50 + 17 * i. */
  lemma EntryFields(s: Sector, i: nat)
    requires i < 20
    ensures var e, at := Parse(s).partitions[i], 0x50 + 17 * i;
            && e.partitionOffset == FromLe32(s[at..at + 4]) && e.partitionSize == FromLe32(s[at + 4..at + 8])
            && e.partitionCode == s[at + 8] && e.partitionType == s[at + 9]
            && e.partitionActive == s[at + 10] && e.flags == s[at + 11] && e.unk == s[at + 12..at + 17]
  {
    hide FromLe32;
    var table, at := s[TABLE..0x1A4], 0x50 + 17 * i;
    EntryAt(table, PARTITIONS, i);
    var b := table[ENTRY * i..ENTRY * i + ENTRY];
    SliceOfSlice(s, TABLE, 0x1A4, ENTRY * i, ENTRY * i + ENTRY);
    SliceOfSlice(s, at, at + 17, 0, 4);
    SliceOfSlice(s, at, at + 17, 4, 8);
    SliceOfSlice(s, at, at + 17, 12, 17);
    assert b[..4] == b[0..4] && b[12..] == b[12..17];
  }

  /** And which bytes decide that the record is valid. */
  lemma ValidatedBytes(s: Sector)
    ensures Validated(Parse(s)) <==>
              && (forall i :: 0 <= i < 0x20 ==> s[i] == "Sony Computer Entertainment Inc."[i] as int)
              && FromLe32(s[0x20..0x24]) == 3 && s[0x1FE] == 0x55 && s[0x1FF] == 0xAA
  {
    hide FromLe32;
    HeaderText();
    if s[..0x20] == SCE_HEADER {
      assert forall i :: 0 <= i < 0x20 ==> s[i] == s[..0x20][i];
    }
  }

  lemma HeaderText()
    ensures |SCE_HEADER| == |"Sony Computer Entertainment Inc."| == 0x20
    ensures forall i :: 0 <= i < 0x20 ==> SCE_HEADER[i] == "Sony Computer Entertainment Inc."[i] as int
  {
  }
}
