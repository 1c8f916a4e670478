/** The IP range index: a plain scan, two binary searches, and the search by header and block. */
module Ip2Region {
  import opened Basics

  const INDEX_BLOCK_LENGTH := 12
  const TOTAL_HEADER_LENGTH := 8192
  const MAX_IP := 0xFFFF_FFFF

  /** Four bytes, least significant first. */
  function GetUnsignedInt(b: seq<Byte>, offset: nat): (v: nat)
    requires offset + 4 <= |b|
    ensures v <= MAX_IP
  {
    b[offset] as int + 0x100 * b[offset + 1] as int + 0x1_0000 * b[offset + 2] as int + 0x100_0000 * b[offset + 3] as int
  }

  // ---------- the index as a table ----------

  /** One range of addresses and the pointer to its data; the pointer 0 stands for no data. */
  datatype Block = Block(start: nat, end: nat, data: nat)

  function BlockAt(b: seq<Byte>, p: nat): Block
    requires p + INDEX_BLOCK_LENGTH <= |b|
  {
    Block(GetUnsignedInt(b, p), GetUnsignedInt(b, p + 4), GetUnsignedInt(b, p + 8))
  }

  function First(db: seq<Byte>): nat
    requires |db| >= 8
  {
    GetUnsignedInt(db, 0)
  }

  function Last(db: seq<Byte>): nat
    requires |db| >= 8
  {
    GetUnsignedInt(db, 4)
  }

  /** The super block points at the first and the last block of an index that lies inside the file. */
  predicate HasIndex(db: seq<Byte>) {
    && 8 <= |db| <= 0x7FFF_FFFF
    && 8 <= First(db) <= Last(db) && (Last(db) - First(db)) % INDEX_BLOCK_LENGTH == 0
    && Last(db) + INDEX_BLOCK_LENGTH <= |db|
  }

  function Total(db: seq<Byte>): (n: nat)
    requires HasIndex(db)
    ensures n > 0
  {
    (Last(db) - First(db)) / INDEX_BLOCK_LENGTH + 1
  }

  function Nth(db: seq<Byte>, i: nat): Block
    requires HasIndex(db) && i < Total(db)
  {
    BlockAt(db, First(db) + INDEX_BLOCK_LENGTH * i)
  }

  /** Ranges that follow each other without gaps, up to the highest address. */
  ghost predicate Contiguous(db: seq<Byte>)
    requires HasIndex(db)
  {
    && (forall i :: 0 <= i < Total(db) ==> Nth(db, i).start <= Nth(db, i).end)
    && (forall i, k :: 0 <= i && k == i + 1 && k < Total(db) ==> Nth(db, i).end + 1 == Nth(db, k).start)
    && Nth(db, Total(db) - 1).end == MAX_IP
  }

  predicate Contains(b: Block, ip: nat) { b.start <= ip <= b.end }

  /** The plain scan: the data pointer of the first range that contains the address, or 0. */
  function Scan(db: seq<Byte>, ip: nat, i: nat): nat
    requires HasIndex(db) && i <= Total(db)
    decreases Total(db) - i
  {
    if i == Total(db) then 0
    else if Contains(Nth(db, i), ip) then Nth(db, i).data
    else Scan(db, ip, i + 1)
  }

  lemma {:induction false} Increasing(db: seq<Byte>, i: nat, k: nat)
    requires HasIndex(db) && Contiguous(db) && i < k < Total(db)
    ensures Nth(db, i).end < Nth(db, k).start
    decreases k - i
  {
    if i + 1 < k { Increasing(db, i + 1, k); }
  }

  /** The range that contains the address is the one the scan finds. */
  lemma {:induction false} ScanFinds(db: seq<Byte>, ip: nat, from: nat, i: nat)
    requires HasIndex(db) && Contiguous(db) && from <= i < Total(db) && Contains(Nth(db, i), ip)
    ensures Scan(db, ip, from) == Nth(db, i).data
    decreases i - from
  {
    if from < i {
      Increasing(db, from, i);
      ScanFinds(db, ip, from + 1, i);
    }
  }

  /** Below the first range nothing is found. */
  lemma {:induction false} ScanMisses(db: seq<Byte>, ip: nat, from: nat)
    requires HasIndex(db) && Contiguous(db) && from <= Total(db) && ip < Nth(db, 0).start
    ensures Scan(db, ip, from) == 0
    decreases Total(db) - from
  {
    if from < Total(db) {
      if from > 0 { Increasing(db, 0, from); }
      ScanMisses(db, ip, from + 1);
    }
  }

  // ---------- the data ----------

  datatype DataBlock = DataBlock(cityId: nat, region: seq<Byte>)

  /** The length and the position that a data pointer packs. */
  function DataLength(data: nat): nat { data / 0x100_0000 % 0x100 }

  function DataPosition(data: nat): nat { data % 0x100_0000 }

  /** Every data pointer leads to a record inside the file that holds at least the city number. */
  ghost predicate HasData(db: seq<Byte>)
    requires HasIndex(db)
  {
    forall i :: 0 <= i < Total(db) && Nth(db, i).data != 0 ==>
      4 <= DataLength(Nth(db, i).data) && DataPosition(Nth(db, i).data) + DataLength(Nth(db, i).data) <= |db|
  }

  predicate GoodPointer(db: seq<Byte>, data: nat) {
    data != 0 ==> 4 <= DataLength(data) && DataPosition(data) + DataLength(data) <= |db|
  }

  function Record(db: seq<Byte>, data: nat): Option<DataBlock>
    requires GoodPointer(db, data)
  {
    if data == 0 then None
    else
      var p, n := DataPosition(data), DataLength(data);
      Some(DataBlock(GetUnsignedInt(db, p), db[p + 4..p + n]))
  }

  lemma {:induction false} ScanGood(db: seq<Byte>, ip: nat, from: nat)
    requires HasIndex(db) && HasData(db) && from <= Total(db)
    ensures GoodPointer(db, Scan(db, ip, from))
    decreases Total(db) - from
  {
    if from < Total(db) { ScanGood(db, ip, from + 1); }
  }

  ghost predicate WellFormed(db: seq<Byte>) {
    HasIndex(db) && Contiguous(db) && HasData(db)
  }

  /** What every search returns. */
  ghost function Region(db: seq<Byte>, ip: nat): Option<DataBlock>
    requires WellFormed(db)
  {
    ScanGood(db, ip, 0);
    Record(db, Scan(db, ip, 0))
  }

  // ---------- the header ----------

  /** Where the header entry `k` is read from. */
  function HeaderStart(db: seq<Byte>, k: nat): nat
    requires 8 * k + 16 <= |db|
  {
    GetUnsignedInt(db, 8 + 8 * k)
  }

  function HeaderPointer(db: seq<Byte>, k: nat): nat
    requires 8 * k + 16 <= |db|
  {
    GetUnsignedInt(db, 12 + 8 * k)
  }

  /**
   * `marks` are the index blocks the header entries point at: they ascend from the first block to the last,
   * neighbours are close enough for the buffer, and the entries end before the first pointer 0.
   */
  ghost predicate HasHeader(db: seq<Byte>, marks: seq<nat>) {
    && HasIndex(db) && 8 + TOTAL_HEADER_LENGTH <= |db| && 2 <= |marks| <= TOTAL_HEADER_LENGTH / 8
    && marks[0] == 0 && marks[|marks| - 1] == Total(db) - 1
    && (forall k, m :: 0 <= k < m < |marks| ==> marks[k] < marks[m])
    && (forall k :: 0 <= k < |marks| ==> marks[k] < Total(db))
    && (forall k, m :: 0 <= k && m == k + 1 && m < |marks| ==>
          INDEX_BLOCK_LENGTH * (marks[m] - marks[k] + 1) <= TOTAL_HEADER_LENGTH)
    && (forall k :: 0 <= k < |marks| ==> Marked(db, k, marks[k]))
    && (|marks| < TOTAL_HEADER_LENGTH / 8 ==> HeaderPointer(db, |marks|) == 0)
  }

  ghost predicate Marked(db: seq<Byte>, k: nat, i: nat) {
    && HasIndex(db) && i < Total(db) && 8 * k + 16 <= |db|
    && HeaderStart(db, k) == Nth(db, i).start
    && HeaderPointer(db, k) == First(db) + INDEX_BLOCK_LENGTH * i
  }

  // ---------- binary search ----------

  /**
   * Where a search stands that numbers the blocks from `base` on and started with the bounds 0 and `top`:
   * the range that contains the address is none of the blocks below `l` or above `h`.
   */
  ghost predicate Narrowed(db: seq<Byte>, ip: nat, base: nat, top: nat, l: int, h: int)
    requires HasIndex(db)
  {
    && 0 <= l <= h + 1 && h <= top && base + top <= Total(db)
    && (l > 0 ==> base + l - 1 < Total(db) && Nth(db, base + l - 1).end < ip)
    && (h < top ==> base + h + 1 < Total(db) && ip < Nth(db, base + h + 1).start)
  }

  /** No probe falls behind the last block, although the search may start with the bound one behind it. */
  lemma ProbeInside(db: seq<Byte>, ip: nat, base: nat, top: nat, l: int, h: int, m: nat)
    requires WellFormed(db) && ip <= MAX_IP && Narrowed(db, ip, base, top, l, h) && l <= m <= h && m == (l + h) / 2
    requires base < Total(db)
    ensures base + m < Total(db)
  {
    assert Nth(db, Total(db) - 1).end >= ip;
    assert l > 0 ==> base + l - 1 != Total(db) - 1;
  }

  lemma NothingBetween(db: seq<Byte>, ip: nat)
    requires WellFormed(db)
    ensures forall i, k :: 0 <= i && k == i + 1 && k < Total(db) ==> !(Nth(db, i).end < ip < Nth(db, k).start)
  {
  }

  /** When the bounds have crossed, no range contains the address. */
  lemma Exhausted(db: seq<Byte>, ip: nat, base: nat, top: nat, l: int, h: int)
    requires WellFormed(db) && ip <= MAX_IP && Narrowed(db, ip, base, top, l, h) && l > h
    requires base < Total(db) && (base > 0 ==> Nth(db, base).start <= ip)
    requires base + top < Total(db) ==> ip <= Nth(db, base + top).end
    ensures Scan(db, ip, 0) == 0
  {
    NothingBetween(db, ip);
    assert l > 0 ==> base + l - 1 + 1 == base + h + 1;
    ScanMisses(db, ip, 0);
  }

  class Index {
    const db: seq<Byte>
    var dbBinStr: Option<seq<Byte>>
    var firstIndexPtr: nat
    var lastIndexPtr: nat
    var totalBlocks: nat
    const headerSip: array<nat>
    const headerPtr: array<nat>
    var headerLen: nat

    constructor (db: seq<Byte>)
      ensures this.db == db && Valid() && HeaderValid([])
      ensures fresh(headerSip) && fresh(headerPtr)
    {
      this.db, dbBinStr, firstIndexPtr, lastIndexPtr, totalBlocks, headerLen := db, None, 0, 0, 0, 0;
      headerSip := new nat[TOTAL_HEADER_LENGTH / 4];
      headerPtr := new nat[TOTAL_HEADER_LENGTH / 4];
    }

    /** What has been read from the file is kept unchanged. */
    ghost predicate Valid()
      reads this
    {
      && headerSip != headerPtr && headerSip.Length == headerPtr.Length == TOTAL_HEADER_LENGTH / 4
      && (totalBlocks > 0 ==> Loaded())
      && (dbBinStr.Some? ==> dbBinStr.value == db && Loaded())
    }

    ghost predicate Loaded()
      reads `firstIndexPtr, `lastIndexPtr, `totalBlocks
    {
      HasIndex(db) && firstIndexPtr == First(db) && lastIndexPtr == Last(db) && totalBlocks == Total(db)
    }

    ghost predicate HeaderValid(marks: seq<nat>)
      reads this, headerSip, headerPtr
    {
      headerLen > 0 ==>
        headerLen == |marks| && forall k :: 0 <= k < headerLen ==> EntryRead(k)
    }

    /** Reads the super block. */
    method Load(b: seq<Byte>)
      requires WellFormed(db) && |b| >= 8 && b[..8] == db[..8]
      modifies this`firstIndexPtr, this`lastIndexPtr, this`totalBlocks
      ensures Loaded()
    {
      assert forall i :: 0 <= i < 8 ==> b[i] == b[..8][i] == db[..8][i];
      firstIndexPtr := GetUnsignedInt(b, 0);
      lastIndexPtr := GetUnsignedInt(b, 4);
      totalBlocks := (lastIndexPtr - firstIndexPtr) / INDEX_BLOCK_LENGTH + 1;
    }

    /** The binary search over the file in memory. */
    method SearchMemory(buffer: seq<Byte>, ip: nat) returns (dptr: nat)
      requires Loaded() && WellFormed(db) && buffer == db && ip <= MAX_IP
      ensures dptr == Scan(db, ip, 0)
    {
      hide Scan, Narrowed, WellFormed, Contiguous, HasData, GetUnsignedInt, First, Last;
      var l, h := 0, totalBlocks;
      StartNarrow(db, ip, 0, totalBlocks);
      while l <= h
        invariant Narrowed(db, ip, 0, totalBlocks, l, h) && 0 <= l
        decreases h - l
      {
        var m := (l + h) / 2;
        ProbeInside(db, ip, 0, totalBlocks, l, h, m);
        var p := firstIndexPtr + m * INDEX_BLOCK_LENGTH;
        NthAt(db, m);
        var sip := GetUnsignedInt(buffer, p);
        if ip < sip {
          NarrowHigh(db, ip, 0, totalBlocks, l, h, m);
          h := m - 1;
        } else {
          var eip := GetUnsignedInt(buffer, p + 4);
          if ip > eip {
            NarrowLow(db, ip, 0, totalBlocks, l, h, m);
            l := m + 1;
          } else {
            dptr := GetUnsignedInt(buffer, p + 8);
            Found(db, ip, m);
            return;
          }
        }
      }
      Exhausted(db, ip, 0, totalBlocks, l, h);
      return 0;
    }

    method MemorySearch(ip: nat) returns (r: Option<DataBlock>)
      requires Valid() && WellFormed(db) && ip <= MAX_IP
      modifies this
      ensures Valid() && headerLen == old(headerLen) && r == Region(db, ip)
    {
      hide Scan, Contiguous, GetUnsignedInt, Nth;
      if dbBinStr.None? {
        dbBinStr := Some(db);
        Load(db);
      }
      var buffer := dbBinStr.value;
      var dptr := SearchMemory(buffer, ip);
      ScanGood(db, ip, 0);
      if dptr == 0 { return None; }
      var dataLen, dataptr := DataLength(dptr), DataPosition(dptr);
      return Some(DataBlock(GetUnsignedInt(buffer, dataptr), buffer[dataptr + 4..dataptr + 4 + (dataLen - 4)]));
    }

    /** Reads bytes from the file; none when the file ends before. */
    method Read(p: nat, n: nat) returns (bytes: Option<seq<Byte>>)
      ensures bytes == if p + n <= |db| then Some(db[p..p + n]) else None
    {
      bytes := if p + n <= |db| then Some(db[p..p + n]) else None;
    }

    /** Reads a record; the buffer holds 256 bytes and the record has at most 255. */
    method ReadRecord(dptr: nat) returns (r: Option<DataBlock>)
      requires GoodPointer(db, dptr)
      ensures r == Record(db, dptr)
    {
      if dptr == 0 { return None; }
      var dataLen, dataptr := DataLength(dptr), DataPosition(dptr);
      var buffer := Read(dataptr, dataLen);
      if buffer.None? { return None; }
      var b := buffer.value;
      SliceReads(db, b, dataptr, 0);
      assert b[4..4 + (dataLen - 4)] == db[dataptr + 4..dataptr + dataLen];
      return Some(DataBlock(GetUnsignedInt(b, 0), b[4..4 + (dataLen - 4)]));
    }

    /** The binary search that reads one block at a time. */
    method SearchFile(ip: nat) returns (dptr: nat)
      requires Loaded() && WellFormed(db) && ip <= MAX_IP
      ensures dptr == Scan(db, ip, 0)
    {
      hide Scan, Narrowed, WellFormed, Contiguous, HasData, GetUnsignedInt, First, Last;
      dptr := 0;
      var l, h := 0, totalBlocks;
      StartNarrow(db, ip, 0, totalBlocks);
      while l <= h
        invariant Narrowed(db, ip, 0, totalBlocks, l, h) && 0 <= l && dptr == 0
        decreases h - l
      {
        var m := (l + h) / 2;
        ProbeInside(db, ip, 0, totalBlocks, l, h, m);
        var p := firstIndexPtr + m * INDEX_BLOCK_LENGTH;
        NthAt(db, m);
        var buffer := Read(p, INDEX_BLOCK_LENGTH);
        if buffer.None? { return; }
        var b := buffer.value;
        SliceBlock(db, b, p, 0);
        var sip := GetUnsignedInt(b, 0);
        if ip < sip {
          NarrowHigh(db, ip, 0, totalBlocks, l, h, m);
          h := m - 1;
        } else {
          var eip := GetUnsignedInt(b, 4);
          if ip > eip {
            NarrowLow(db, ip, 0, totalBlocks, l, h, m);
            l := m + 1;
          } else {
            dptr := GetUnsignedInt(b, 8);
            Found(db, ip, m);
            return;
          }
        }
      }
      Exhausted(db, ip, 0, totalBlocks, l, h);
      return 0;
    }

    method BinarySearch(ip: nat) returns (r: Option<DataBlock>)
      requires Valid() && WellFormed(db) && ip <= MAX_IP
      modifies this
      ensures Valid() && headerLen == old(headerLen) && r == Region(db, ip)
    {
      if totalBlocks == 0 {
        var buffer := Read(0, 8);
        if buffer.None? { return None; }
        Load(buffer.value);
      }
      var dptr := SearchFile(ip);
      ScanGood(db, ip, 0);
      r := ReadRecord(dptr);
    }

    /** Reads the header entries up to the first pointer 0. */
    method LoadHeader(ghost marks: seq<nat>) returns (ok: bool)
      requires Valid() && HasHeader(db, marks) && headerLen == 0
      modifies this`headerLen, headerSip, headerPtr
      ensures ok && Valid() && headerLen == |marks| && HeaderValid(marks)
    {
      hide Marked, GetUnsignedInt, HeaderStart, HeaderPointer, HasIndex, Loaded;
      HeaderInFile(db, marks);
      var buffer := Read(8, TOTAL_HEADER_LENGTH);
      if buffer.None? { return false; }
      var b := buffer.value;
      var i, idx := 0, 0;
      while i < TOTAL_HEADER_LENGTH
        invariant Valid() && i == 8 * idx <= TOTAL_HEADER_LENGTH && 0 <= idx <= |marks|
        invariant forall k :: 0 <= k < idx ==> headerSip[k] == HeaderStart(db, k) && headerPtr[k] == HeaderPointer(db, k)
        decreases TOTAL_HEADER_LENGTH - i
      {
        EntryAt(db, b, idx);
        EntryPointer(db, marks, idx);
        var sip, idxptr := GetUnsignedInt(b, i), GetUnsignedInt(b, i + 4);
        if idxptr == 0 { break; }
        headerSip[idx], headerPtr[idx] := sip, idxptr;
        i, idx := i + 8, idx + 1;
      }
      assert forall k :: 0 <= k < idx ==> EntryRead(k);
      headerLen := idx;
      return true;
    }

    lemma Entry(marks: seq<nat>, k: nat)
      requires HeaderValid(marks) && k < headerLen
      ensures k < headerSip.Length && k < headerPtr.Length && 8 * k + 16 <= |db|
      ensures headerSip[k] == HeaderStart(db, k) && headerPtr[k] == HeaderPointer(db, k)
    {
      assert EntryRead(k);
    }

    /** One probe of the header: the entries that enclose the address, or on which side of `m` to go on. */
    method Probe(ip: nat, m: nat, ghost marks: seq<nat>)
      returns (found: bool, left: bool, sptr: nat, eptr: nat, ghost k: nat)
      requires WellFormed(db) && HasHeader(db, marks) && headerLen == |marks| && HeaderValid(marks) && ip <= MAX_IP
      requires m < headerLen && 8 * headerLen + 8 <= |db| && Ascend(db, marks)
      ensures found ==> k + 1 < |marks| && sptr == HeaderPointer(db, k) && eptr == HeaderPointer(db, k + 1)
      ensures found ==> Encloses(db, ip, marks, k)
      ensures !found && left ==> m > 0 && ip <= HeaderStart(db, m - 1)
      ensures !found && !left ==> m + 1 < headerLen && HeaderStart(db, m + 1) < ip
    {
      hide WellFormed, HasHeader, HeaderStart, HeaderPointer, Encloses, Ascend, EntryRead, HeaderValid;
      HeaderInFile(db, marks);
      Entry(marks, m);
      if m > 0 { Entry(marks, m - 1); }
      if m + 1 < headerLen { Entry(marks, m + 1); }
      if ip == headerSip[m] {
        if m > 0 {
          Ordered(db, marks, m - 1, m);
          EnclosedBelow(db, ip, marks, m);
          return true, false, headerPtr[m - 1], headerPtr[m], m - 1;
        } else {
          EnclosedFirst(db, ip, marks);
          return true, false, headerPtr[m], headerPtr[m + 1], m;
        }
      }
      if ip < headerSip[m] {
        if m == 0 {
          EnclosedFirst(db, ip, marks);
          return true, false, headerPtr[m], headerPtr[m + 1], m;
        } else if ip > headerSip[m - 1] {
          EnclosedBelow(db, ip, marks, m);
          return true, false, headerPtr[m - 1], headerPtr[m], m - 1;
        }
        return false, true, 0, 0, 0;
      }
      if m == headerLen - 1 {
        EnclosedLast(db, ip, marks);
        return true, false, headerPtr[m - 1], headerPtr[m], m - 1;
      } else if ip <= headerSip[m + 1] {
        EnclosedBelow(db, ip, marks, m + 1);
        return true, false, headerPtr[m], headerPtr[m + 1], m;
      }
      return false, false, 0, 0, 0;
    }

    /** The search of the header: two neighbouring entries whose blocks enclose the address. */
    method SearchHeader(ip: nat, ghost marks: seq<nat>) returns (sptr: nat, eptr: nat)
      requires WellFormed(db) && HasHeader(db, marks) && headerLen == |marks| && HeaderValid(marks) && ip <= MAX_IP
      ensures exists k: nat :: Between(db, ip, marks, k, sptr, eptr)
    {
      hide WellFormed, HasHeader, HeaderStart, HeaderPointer, Encloses, Ascend, EntryRead, HeaderValid;
      HeaderInFile(db, marks);
      HeaderAscends(db, marks);
      sptr, eptr := 0, 0;
      var l, h := 0, headerLen;
      while l <= h
        invariant 0 <= l < headerLen && l <= h + 1 && 0 <= h <= headerLen
        invariant l > 0 ==> HeaderStart(db, l) < ip
        invariant h < headerLen ==> ip <= HeaderStart(db, h)
        decreases h - l
      {
        var m := (l + h) / 2;
        var found, left;
        ghost var k;
        found, left, sptr, eptr, k := Probe(ip, m, marks);
        if found { assert Between(db, ip, marks, k, sptr, eptr); }
        if found { return; }
        if left { h := m - 1; } else { l := m + 1; }
      }
      Crossed(db, marks, ip, l, h);
    }

    /** The search inside the blocks between two header entries, which are read in one go. */
    method SearchSpan(ip: nat, sptr: nat, eptr: nat, ghost marks: seq<nat>, ghost k: nat) returns (dptr: nat)
      requires WellFormed(db) && HasHeader(db, marks) && ip <= MAX_IP && Between(db, ip, marks, k, sptr, eptr)
      ensures dptr == Scan(db, ip, 0)
    {
      hide Scan, Narrowed, WellFormed, Contiguous, HasData, HasHeader, GetUnsignedInt, First, Last, HeaderPointer;
      SpanAt(db, ip, marks, k);
      dptr := 0;
      var indexBlockLen := eptr - sptr;
      var buffer := Read(sptr, indexBlockLen + INDEX_BLOCK_LENGTH);
      if buffer.None? { return; }
      var b := buffer.value;
      var l, h := 0, indexBlockLen / INDEX_BLOCK_LENGTH;
      ghost var base, top := marks[k], h;
      StartNarrow(db, ip, base, top);
      while l <= h
        invariant Narrowed(db, ip, base, top, l, h) && 0 <= l && h <= top && dptr == 0
        decreases h - l
      {
        var m := (l + h) / 2;
        var p := m * INDEX_BLOCK_LENGTH;
        NthAt(db, base + m);
        SliceBlock(db, b, sptr, p);
        var sip := GetUnsignedInt(b, p);
        if ip < sip {
          NarrowHigh(db, ip, base, top, l, h, m);
          h := m - 1;
        } else {
          var eip := GetUnsignedInt(b, p + 4);
          if ip > eip {
            NarrowLow(db, ip, base, top, l, h, m);
            l := m + 1;
          } else {
            dptr := GetUnsignedInt(b, p + 8);
            Found(db, ip, base + m);
            return;
          }
        }
      }
      Exhausted(db, ip, base, top, l, h);
    }

    method BtreeSearch(ip: nat, ghost marks: seq<nat>) returns (r: Option<DataBlock>)
      requires Valid() && WellFormed(db) && HasHeader(db, marks) && HeaderValid(marks) && ip <= MAX_IP
      modifies this, headerSip, headerPtr
      ensures Valid() && HeaderValid(marks) && r == Region(db, ip)
    {
      hide WellFormed, HasHeader, Encloses, HeaderPointer, Scan, Record, GoodPointer;
      HeaderInFile(db, marks);
      if headerLen == 0 {
        var ok := LoadHeader(marks);
        if !ok { return None; }
      }
      var sptr, eptr := SearchHeader(ip, marks);
      ghost var k: nat :| Between(db, ip, marks, k, sptr, eptr);
      SpanAt(db, ip, marks, k);
      if sptr == 0 { return None; }
      var dptr := SearchSpan(ip, sptr, eptr, marks, k);
      GoodScan(db, ip);
      r := ReadRecord(dptr);
    }

    /** The arrays hold the header entry `k`. */
    ghost predicate EntryRead(k: nat)
      reads headerSip, headerPtr
    {
      && k < headerSip.Length && k < headerPtr.Length && 8 * k + 16 <= |db|
      && headerSip[k] == HeaderStart(db, k) && headerPtr[k] == HeaderPointer(db, k)
    }
  }

  lemma GoodScan(db: seq<Byte>, ip: nat)
    requires WellFormed(db)
    ensures HasIndex(db) && GoodPointer(db, Scan(db, ip, 0))
  {
    ScanGood(db, ip, 0);
  }

  lemma HeaderInFile(db: seq<Byte>, marks: seq<nat>)
    requires HasHeader(db, marks)
    ensures 8 + TOTAL_HEADER_LENGTH <= |db| && 2 <= |marks| <= TOTAL_HEADER_LENGTH / 8
  {
  }

  lemma EntryAt(db: seq<Byte>, b: seq<Byte>, k: nat)
    requires 8 + TOTAL_HEADER_LENGTH <= |db| && b == db[8..8 + TOTAL_HEADER_LENGTH] && 8 * k < TOTAL_HEADER_LENGTH
    ensures GetUnsignedInt(b, 8 * k) == HeaderStart(db, k)
    ensures GetUnsignedInt(b, 8 * k + 4) == HeaderPointer(db, k)
  {
    SliceReads(db, b, 8, 8 * k);
    SliceReads(db, b, 8, 8 * k + 4);
  }

  /** The pointer of an entry is 0 behind the last entry only. */
  lemma EntryPointer(db: seq<Byte>, marks: seq<nat>, k: nat)
    requires HasHeader(db, marks) && k <= |marks| && 8 * k < TOTAL_HEADER_LENGTH
    ensures HeaderPointer(db, k) == 0 <==> k == |marks|
  {
    if k < |marks| { assert Marked(db, k, marks[k]); }
  }

  lemma SliceReads(db: seq<Byte>, b: seq<Byte>, p: nat, offset: nat)
    requires p + |b| <= |db| && b == db[p..p + |b|] && offset + 4 <= |b|
    ensures GetUnsignedInt(b, offset) == GetUnsignedInt(db, p + offset)
  {
  }

  lemma SliceBlock(db: seq<Byte>, b: seq<Byte>, p: nat, offset: nat)
    requires p + |b| <= |db| && b == db[p..p + |b|] && offset + INDEX_BLOCK_LENGTH <= |b|
    ensures BlockAt(b, offset) == BlockAt(db, p + offset)
  {
    SliceReads(db, b, p, offset);
    SliceReads(db, b, p, offset + 4);
    SliceReads(db, b, p, offset + 8);
  }

  lemma NthAt(db: seq<Byte>, i: nat)
    requires HasIndex(db) && i < Total(db)
    ensures var p := First(db) + INDEX_BLOCK_LENGTH * i;
      p + INDEX_BLOCK_LENGTH <= |db| && Nth(db, i) == BlockAt(db, p)
  {
  }

  lemma StartNarrow(db: seq<Byte>, ip: nat, base: nat, top: nat)
    requires HasIndex(db) && base + top <= Total(db)
    ensures Narrowed(db, ip, base, top, 0, top)
  {
  }

  lemma NarrowHigh(db: seq<Byte>, ip: nat, base: nat, top: nat, l: int, h: int, m: nat)
    requires HasIndex(db) && Narrowed(db, ip, base, top, l, h) && l <= m <= h
    requires base + m < Total(db) && ip < Nth(db, base + m).start
    ensures Narrowed(db, ip, base, top, l, m - 1)
  {
  }

  lemma NarrowLow(db: seq<Byte>, ip: nat, base: nat, top: nat, l: int, h: int, m: nat)
    requires HasIndex(db) && Narrowed(db, ip, base, top, l, h) && l <= m <= h
    requires base + m < Total(db) && Nth(db, base + m).end < ip
    ensures Narrowed(db, ip, base, top, m + 1, h)
  {
  }

  lemma Found(db: seq<Byte>, ip: nat, i: nat)
    requires WellFormed(db) && i < Total(db) && Contains(Nth(db, i), ip)
    ensures Scan(db, ip, 0) == Nth(db, i).data
  {
    ScanFinds(db, ip, 0, i);
  }

  /** The blocks from one header entry to the next, both included, are the only ones that may contain the address. */
  ghost predicate Encloses(db: seq<Byte>, ip: nat, marks: seq<nat>, k: nat) {
    && HasIndex(db) && k + 1 < |marks| && marks[k] < marks[k + 1] < Total(db)
    && (marks[k] > 0 ==> Nth(db, marks[k]).start <= ip)
    && ip <= Nth(db, marks[k + 1]).end
  }

  /** The two pointers are those of the header entries `k` and `k + 1`, and the address lies in the blocks from one to the other. */
  ghost predicate Between(db: seq<Byte>, ip: nat, marks: seq<nat>, k: nat, sptr: nat, eptr: nat) {
    && 8 * k + 24 <= |db|
    && sptr == HeaderPointer(db, k) && eptr == HeaderPointer(db, k + 1)
    && Encloses(db, ip, marks, k)
  }

  ghost predicate Ascend(db: seq<Byte>, marks: seq<nat>) {
    && 8 * |marks| + 8 <= |db|
    && forall k, m :: 0 <= k < m < |marks| ==> HeaderStart(db, k) < HeaderStart(db, m)
  }

  lemma HeaderAscends(db: seq<Byte>, marks: seq<nat>)
    requires WellFormed(db) && HasHeader(db, marks)
    ensures Ascend(db, marks)
  {
    forall k, m | 0 <= k < m < |marks| ensures HeaderStart(db, k) < HeaderStart(db, m) {
      assert Marked(db, k, marks[k]) && Marked(db, m, marks[m]);
      Increasing(db, marks[k], marks[m]);
    }
  }

  lemma Crossed(db: seq<Byte>, marks: seq<nat>, ip: nat, l: int, h: int)
    requires Ascend(db, marks) && 0 <= h < l < |marks|
    requires HeaderStart(db, l) < ip
    ensures !(ip <= HeaderStart(db, h))
  {
    Ordered(db, marks, h, l);
  }

  lemma Ordered(db: seq<Byte>, marks: seq<nat>, h: nat, l: nat)
    requires Ascend(db, marks) && h < l < |marks|
    ensures HeaderStart(db, h) < HeaderStart(db, l)
  {
  }

  lemma EnclosedBelow(db: seq<Byte>, ip: nat, marks: seq<nat>, m: nat)
    requires WellFormed(db) && HasHeader(db, marks) && 0 < m < |marks|
    requires 8 * m + 16 <= |db| && HeaderStart(db, m - 1) < ip <= HeaderStart(db, m)
    ensures Encloses(db, ip, marks, m - 1)
  {
    assert Marked(db, m - 1, marks[m - 1]) && Marked(db, m, marks[m]);
  }

  lemma EnclosedFirst(db: seq<Byte>, ip: nat, marks: seq<nat>)
    requires WellFormed(db) && HasHeader(db, marks) && 16 <= |db| && ip <= HeaderStart(db, 0)
    ensures Encloses(db, ip, marks, 0)
  {
    assert Marked(db, 0, marks[0]);
    Increasing(db, marks[0], marks[1]);
  }

  lemma EnclosedLast(db: seq<Byte>, ip: nat, marks: seq<nat>)
    requires WellFormed(db) && HasHeader(db, marks) && ip <= MAX_IP
    requires 8 * |marks| + 8 <= |db| && HeaderStart(db, |marks| - 1) < ip
    ensures Encloses(db, ip, marks, |marks| - 2)
  {
    var n := |marks|;
    assert Marked(db, n - 1, marks[n - 1]) && Marked(db, n - 2, marks[n - 2]);
    Increasing(db, marks[n - 2], marks[n - 1]);
  }

  /** Where the span of blocks between two header entries lies in the file. */
  lemma SpanAt(db: seq<Byte>, ip: nat, marks: seq<nat>, k: nat)
    requires WellFormed(db) && HasHeader(db, marks) && Encloses(db, ip, marks, k)
    ensures 8 * k + 24 <= |db|
    ensures HeaderPointer(db, k) == First(db) + INDEX_BLOCK_LENGTH * marks[k] > 0
    ensures HeaderPointer(db, k + 1) == First(db) + INDEX_BLOCK_LENGTH * marks[k + 1]
    ensures HeaderPointer(db, k + 1) + INDEX_BLOCK_LENGTH <= |db|
    ensures HeaderPointer(db, k + 1) - HeaderPointer(db, k) + INDEX_BLOCK_LENGTH <= TOTAL_HEADER_LENGTH
  {
    assert Marked(db, k, marks[k]) && Marked(db, k + 1, marks[k + 1]);
    NthAt(db, marks[k + 1]);
  }

  /** The smallest index: one range that covers every address. */
  lemma OneRange(db: seq<Byte>)
    requires db == [8, 0, 0, 0, 8, 0, 0, 0, 0, 0, 0, 0, 255, 255, 255, 255, 0, 0, 0, 0]
    ensures WellFormed(db)
  {
    assert First(db) == 8 && Last(db) == 8 && Total(db) == 1;
    assert Nth(db, 0) == Block(0, MAX_IP, 0);
  }

  // ---------- files as they are written ----------

  /** A range of addresses and where its record lies; a record of length 0 at position 0 stands for none. */
  datatype Range = Range(start: nat, end: nat, position: nat, length: nat)

  predicate Fits32(v: nat) { v < 4294967296 }

  /** A number in four bytes, the least significant one first. */
  function Spell4(v: nat): (b: seq<Byte>)
    requires Fits32(v)
    ensures |b| == 4
  {
    [v % 256, v / 256 % 256, v / 65536 % 256, v / 16777216]
  }

  predicate RangeFits(r: Range) {
    r.start <= r.end && Fits32(r.end) && r.position < 16777216 && r.length < 256
  }

  /** A block of the index: the range, and the position of the record with its length in the highest byte. */
  function SpellRange(r: Range): (b: seq<Byte>)
    requires RangeFits(r)
    ensures |b| == 12
  {
    Spell4(r.start) + Spell4(r.end) + Spell4(r.position + 16777216 * r.length)
  }

  function SpellRanges(rs: seq<Range>): (b: seq<Byte>)
    requires forall i :: 0 <= i < |rs| ==> RangeFits(rs[i])
    ensures |b| == 12 * |rs|
  {
    if rs == [] then [] else SpellRange(rs[0]) + SpellRanges(rs[1..])
  }

  /** The ranges a file is made of: no gaps, up to the last address. */
  ghost predicate Ranges(rs: seq<Range>) {
    && rs != [] && (forall i :: 0 <= i < |rs| ==> RangeFits(rs[i]))
    && (forall i, k :: 0 <= i && k == i + 1 && k < |rs| ==> rs[i].end + 1 == rs[k].start)
    && rs[|rs| - 1].end == 4294967295
  }

  /** Every record lies in the file and holds at least the city number. */
  ghost predicate Records(db: seq<Byte>, rs: seq<Range>) {
    forall i :: 0 <= i < |rs| ==>
      (rs[i].position == 0 && rs[i].length == 0) || (4 <= rs[i].length && rs[i].position + rs[i].length <= |db|)
  }

  /** The file: pointers to the first and the last block, anything, the blocks, anything. */
  ghost predicate FileOf(db: seq<Byte>, rs: seq<Range>, middle: seq<Byte>, after: seq<Byte>) {
    var f := 8 + |middle|;
    && |db| < 2147483648 && Ranges(rs) && Records(db, rs) && Fits32(f + 12 * |rs|)
    && db == Spell4(f) + Spell4(f + 12 * |rs| - 12) + middle + SpellRanges(rs) + after
  }

  predicate Stands(db: seq<Byte>, p: nat, b: seq<Byte>) {
    p + |b| <= |db| && db[p..p + |b|] == b
  }

  /** Four bytes are read as the number they were written for. */
  lemma ReadsBack(db: seq<Byte>, p: nat, v: nat)
    requires Fits32(v) && Stands(db, p, Spell4(v))
    ensures GetUnsignedInt(db, p) == v
  {
    var b := db[p..p + 4];
    assert b[0] == db[p] && b[1] == db[p + 1] && b[2] == db[p + 2] && b[3] == db[p + 3];
    assert v / 256 / 256 == v / 65536 && v / 65536 / 256 == v / 16777216;
  }

  /** A packed pointer gives both its parts. */
  lemma Unpacks(position: nat, length: nat)
    requires position < 16777216 && length < 256
    ensures DataPosition(position + 16777216 * length) == position && DataLength(position + 16777216 * length) == length
  {
  }

  lemma StandsSplit(db: seq<Byte>, p: nat, a: seq<Byte>, b: seq<Byte>)
    requires Stands(db, p, a + b)
    ensures Stands(db, p, a) && Stands(db, p + |a|, b)
  {
    assert db[p..p + |a|] == (a + b)[..|a|] && db[p + |a|..p + |a| + |b|] == (a + b)[|a|..];
  }

  lemma BlockReads(db: seq<Byte>, p: nat, r: Range)
    requires RangeFits(r) && Stands(db, p, SpellRange(r))
    ensures BlockAt(db, p) == Block(r.start, r.end, r.position + 16777216 * r.length)
  {
    hide GetUnsignedInt, Spell4, Stands;
    var packed := r.position + 16777216 * r.length;
    StandsLength(db, p, SpellRange(r));
    StandsSplit(db, p, Spell4(r.start) + Spell4(r.end), Spell4(packed));
    StandsSplit(db, p, Spell4(r.start), Spell4(r.end));
    ReadsBack(db, p, r.start);
    ReadsBack(db, p + 4, r.end);
    ReadsBack(db, p + 8, packed);
  }

  lemma StandsLength(db: seq<Byte>, p: nat, b: seq<Byte>)
    requires Stands(db, p, b)
    ensures p + |b| <= |db|
  {
  }

  lemma {:induction false} BlocksRead(db: seq<Byte>, p: nat, rs: seq<Range>, i: nat)
    requires (forall k :: 0 <= k < |rs| ==> RangeFits(rs[k])) && Stands(db, p, SpellRanges(rs)) && i < |rs|
    ensures p + 12 * i + 12 <= |db|
    ensures BlockAt(db, p + 12 * i) == Block(rs[i].start, rs[i].end, rs[i].position + 16777216 * rs[i].length)
    decreases i
  {
    hide SpellRange, BlockAt, Stands;
    StandsSplit(db, p, SpellRange(rs[0]), SpellRanges(rs[1..]));
    StandsLength(db, p, SpellRanges(rs));
    if i == 0 {
      BlockReads(db, p, rs[0]);
    } else {
      BlocksRead(db, p + 12, rs[1..], i - 1);
    }
  }

  lemma StandsWhole(db: seq<Byte>)
    ensures Stands(db, 0, db)
  {
    assert db[0..|db|] == db;
  }

  lemma FilePointers(db: seq<Byte>, rs: seq<Range>, middle: seq<Byte>, after: seq<Byte>)
    requires FileOf(db, rs, middle, after)
    ensures var f := 8 + |middle|;
      && |db| >= f + 12 * |rs| && First(db) == f && Last(db) == f + 12 * |rs| - 12
      && Stands(db, 8, middle) && Stands(db, f, SpellRanges(rs))
  {
    var f := 8 + |middle|;
    var a, b, c := Spell4(f), Spell4(f + 12 * |rs| - 12), SpellRanges(rs);
    hide GetUnsignedInt, Spell4, SpellRanges, Stands, Ranges, Records;
    StandsWhole(db);
    StandsSplit(db, 0, a + b + middle + c, after);
    StandsSplit(db, 0, a + b + middle, c);
    StandsSplit(db, 0, a + b, middle);
    StandsSplit(db, 0, a, b);
    StandsLength(db, f, c);
    ReadsBack(db, 0, f);
    ReadsBack(db, 4, f + 12 * |rs| - 12);
  }

  lemma RangesFit(rs: seq<Range>)
    requires Ranges(rs)
    ensures rs != [] && forall i :: 0 <= i < |rs| ==> RangeFits(rs[i])
  {
  }

  /** The index of a written file is the list of ranges. */
  lemma FileIndex(db: seq<Byte>, rs: seq<Range>, middle: seq<Byte>, after: seq<Byte>)
    requires FileOf(db, rs, middle, after)
    ensures HasIndex(db) && Total(db) == |rs| && First(db) == 8 + |middle|
    ensures forall i :: 0 <= i < |rs| ==>
      Nth(db, i) == Block(rs[i].start, rs[i].end, rs[i].position + 16777216 * rs[i].length)
  {
    hide GetUnsignedInt, First, Last, Stands, SpellRanges, Spell4, Ranges, Records, BlockAt;
    FilePointers(db, rs, middle, after);
    RangesFit(rs);
    assert 12 * |rs| - 12 == (|rs| - 1) * 12 + 0;
    forall i | 0 <= i < |rs| ensures Nth(db, i) == Block(rs[i].start, rs[i].end, rs[i].position + 16777216 * rs[i].length) {
      BlocksRead(db, 8 + |middle|, rs, i);
    }
  }

  lemma FileIsWellFormed(db: seq<Byte>, rs: seq<Range>, middle: seq<Byte>, after: seq<Byte>)
    requires FileOf(db, rs, middle, after)
    ensures WellFormed(db)
  {
    hide GetUnsignedInt, Nth, SpellRanges, First, Last, DataLength, DataPosition;
    FileIndex(db, rs, middle, after);
    forall i | 0 <= i < Total(db) && Nth(db, i).data != 0
      ensures 4 <= DataLength(Nth(db, i).data) && DataPosition(Nth(db, i).data) + DataLength(Nth(db, i).data) <= |db|
    {
      Unpacks(rs[i].position, rs[i].length);
    }
  }

  /**
   * In a written file every search returns the record of the range that contains the address: its first four bytes
   * as the city number, the rest as the region; nothing if the range has no record.
   */
  lemma FileSearched(db: seq<Byte>, rs: seq<Range>, middle: seq<Byte>, after: seq<Byte>, ip: nat, i: nat, city: nat)
    requires FileOf(db, rs, middle, after) && i < |rs| && rs[i].start <= ip <= rs[i].end
    requires rs[i].length > 0 ==> Fits32(city) && Stands(db, rs[i].position, Spell4(city))
    ensures WellFormed(db)
    ensures Region(db, ip) == if rs[i].length == 0 then None
      else Some(DataBlock(city, db[rs[i].position + 4..rs[i].position + rs[i].length]))
  {
    hide GetUnsignedInt, Nth, SpellRanges, First, Last, DataLength, DataPosition, Scan, Stands, Contiguous, HasData;
    FileIsWellFormed(db, rs, middle, after);
    FileIndex(db, rs, middle, after);
    ScanFinds(db, ip, 0, i);
    Unpacks(rs[i].position, rs[i].length);
    if rs[i].length > 0 { ReadsBack(db, rs[i].position, city); }
  }

  /** Below the first range there is nothing to be found. */
  lemma FileSearchedBelow(db: seq<Byte>, rs: seq<Range>, middle: seq<Byte>, after: seq<Byte>, ip: nat)
    requires FileOf(db, rs, middle, after) && ip < rs[0].start
    ensures WellFormed(db) && Region(db, ip) == None
  {
    hide GetUnsignedInt, Nth, SpellRanges, First, Last, Scan, Contiguous, HasData;
    FileIsWellFormed(db, rs, middle, after);
    FileIndex(db, rs, middle, after);
    ScanMisses(db, ip, 0);
  }

  /** The header: for some of the blocks, the start of their range and the pointer to them. */
  function SpellEntries(rs: seq<Range>, marks: seq<nat>, f: nat): (b: seq<Byte>)
    requires forall k :: 0 <= k < |marks| ==> marks[k] < |rs| && Fits32(rs[marks[k]].start) && Fits32(f + 12 * marks[k])
    ensures |b| == 8 * |marks|
  {
    if marks == [] then []
    else Spell4(rs[marks[0]].start) + Spell4(f + 12 * marks[0]) + SpellEntries(rs, marks[1..], f)
  }

  lemma {:induction false} EntriesRead(db: seq<Byte>, p: nat, rs: seq<Range>, marks: seq<nat>, f: nat, k: nat)
    requires forall k :: 0 <= k < |marks| ==> marks[k] < |rs| && Fits32(rs[marks[k]].start) && Fits32(f + 12 * marks[k])
    requires Stands(db, p, SpellEntries(rs, marks, f)) && k < |marks|
    ensures p + 8 * k + 8 <= |db|
    ensures GetUnsignedInt(db, p + 8 * k) == rs[marks[k]].start && GetUnsignedInt(db, p + 8 * k + 4) == f + 12 * marks[k]
    decreases k
  {
    hide GetUnsignedInt, Spell4, Stands;
    var start, pointer := Spell4(rs[marks[0]].start), Spell4(f + 12 * marks[0]);
    StandsSplit(db, p, start + pointer, SpellEntries(rs, marks[1..], f));
    StandsLength(db, p, SpellEntries(rs, marks, f));
    if k == 0 {
      StandsSplit(db, p, start, pointer);
      ReadsBack(db, p, rs[marks[0]].start);
      ReadsBack(db, p + 4, f + 12 * marks[0]);
    } else {
      EntriesRead(db, p + 8, rs, marks[1..], f, k - 1);
    }
  }

  /** The blocks that header entries stand for: the first and the last among them, not too far apart. */
  ghost predicate Marks(rs: seq<Range>, marks: seq<nat>) {
    && 2 <= |marks| <= 1024 && marks[0] == 0 && marks[|marks| - 1] == |rs| - 1
    && (forall k, m :: 0 <= k < m < |marks| ==> marks[k] < marks[m])
    && (forall k :: 0 <= k < |marks| ==> marks[k] < |rs|)
    && (forall k, m :: 0 <= k && m == k + 1 && m < |marks| ==> 12 * (marks[m] - marks[k] + 1) <= 8192)
  }

  /** A file whose middle starts with such a header and, if that is shorter than 8192 bytes, zeros behind it. */
  ghost predicate HeaderOf(db: seq<Byte>, rs: seq<Range>, marks: seq<nat>, middle: seq<Byte>, zeros: seq<Byte>, data: seq<Byte>)
  {
    && Marks(rs, marks) && (forall k :: 0 <= k < |marks| ==> Fits32(rs[marks[k]].start) && Fits32(8 + |middle| + 12 * marks[k]))
    && middle == SpellEntries(rs, marks, 8 + |middle|) + zeros + data
    && 8 * |marks| + |zeros| == 8192 && forall i :: 0 <= i < |zeros| ==> zeros[i] == 0
  }

  /** So the header of a written file is as the search by header and blocks asks. */
  lemma FileHasHeader(db: seq<Byte>, rs: seq<Range>, marks: seq<nat>, middle: seq<Byte>, zeros: seq<Byte>, data: seq<Byte>,
        after: seq<Byte>)
    requires FileOf(db, rs, middle, after) && HeaderOf(db, rs, marks, middle, zeros, data)
    ensures HasHeader(db, marks)
  {
    hide GetUnsignedInt, Nth, SpellRanges, SpellEntries, First, Last, Stands;
    FilePointers(db, rs, middle, after);
    FileIndex(db, rs, middle, after);
    var f := 8 + |middle|;
    var entries := SpellEntries(rs, marks, f);
    StandsLength(db, 8, middle);
    StandsSplit(db, 8, entries + zeros, data);
    StandsSplit(db, 8, entries, zeros);
    forall k | 0 <= k < |marks| ensures Marked(db, k, marks[k]) {
      EntriesRead(db, 8, rs, marks, f, k);
    }
    if |marks| < 1024 { ZeroReads(db, 8 + 8 * |marks|, zeros); }
  }

  lemma ZeroReads(db: seq<Byte>, p: nat, zeros: seq<Byte>)
    requires Stands(db, p, zeros) && |zeros| >= 8 && forall i :: 0 <= i < |zeros| ==> zeros[i] == 0
    ensures p + 8 <= |db| && GetUnsignedInt(db, p + 4) == 0
  {
    var b := db[p..p + |zeros|];
    assert b[4] == db[p + 4] && b[5] == db[p + 5] && b[6] == db[p + 6] && b[7] == db[p + 7];
  }
}
