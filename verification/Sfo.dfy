/** System file objects (RPI/sfo.c): loading a table from memory into a doubly linked list, and looking a key up. */
module Sfo {
  import opened Bytes
  import opened Seqs
  import opened DList

  const HEADER_SIZE: nat := 0x14
  const ENTRY_SIZE: nat := 0x10
  const MAGIC: seq<Byte> := [0x00, 0x50, 0x53, 0x46]

  /** struct sfo_entry without its links. A key is the bytes before its NUL. */
  datatype Entry = Entry(key: seq<Byte>, format: nat, size: nat, area: nat, value: seq<Byte>)

  /**
    What reading one row gives: an entry, sizes the code refuses, or a read past the end of the data, which it
    does not check.
   */
  datatype Row = Got(entry: Entry) | Unfit | StrayKey | StrayValue

  datatype Outcome = Loaded | Refused | Strayed

  /** The index of the first NUL at or after p, or the end of the data. */
  function StrEnd(data: seq<Byte>, p: nat): (end: nat)
    requires p <= |data|
    ensures p <= end <= |data| && (end < |data| ==> data[end] == 0)
    ensures forall i | p <= i < end :: data[i] != 0
    decreases |data| - p
  {
    if p == |data| || data[p] == 0 then p else StrEnd(data, p + 1)
  }

  function Zeros(n: nat): (s: seq<Byte>)
    ensures |s| == n && forall i | 0 <= i < n :: s[i] == 0
  {
    seq(n, _ => 0)
  }

  function ReadAt(data: seq<Byte>, at: nat): Row
    requires HEADER_SIZE <= |data| && at + ENTRY_SIZE <= |data|
  {
    var size, area := LE32(data, at + 4), LE32(data, at + 8);
    var key := LE32(data, 8) + LE16(data, at);
    var value := LE32(data, 0x0C) + LE32(data, at + 0x0C);
    if area < size then Unfit
    else if key > |data| || StrEnd(data, key) == |data| then StrayKey
    else if size > 0 && value + size > |data| then StrayValue
    else
      var bytes := if size > 0 then data[value..value + size] else [];
      Got(Entry(data[key..StrEnd(data, key)], LE16(data, at + 2), size, area, bytes + Zeros(area - size)))
  }

  function ReadRow(data: seq<Byte>, i: nat): Row
    requires HEADER_SIZE + ENTRY_SIZE * (i + 1) <= |data|
  {
    ReadAt(data, HEADER_SIZE + ENTRY_SIZE * i)
  }

  function Count(data: seq<Byte>): nat
    requires HEADER_SIZE <= |data|
  {
    LE32(data, 0x10)
  }

  /** The data starts like a system file object and is long enough for its table. */
  predicate HasTable(data: seq<Byte>) {
    HEADER_SIZE <= |data| && data[..4] == MAGIC && HEADER_SIZE + ENTRY_SIZE * Count(data) <= |data|
  }

  /** The first rows read as these entries. */
  ghost predicate ReadAs(data: seq<Byte>, entries: seq<Entry>)
    requires HEADER_SIZE + ENTRY_SIZE * |entries| <= |data|
  {
    forall i | 0 <= i < |entries| :: ReadRow(data, i) == Got(entries[i])
  }

  lemma ReadOne(data: seq<Byte>, entries: seq<Entry>, e: Entry)
    requires HEADER_SIZE + ENTRY_SIZE * (|entries| + 1) <= |data|
    requires ReadAs(data, entries) && ReadRow(data, |entries|) == Got(e)
    ensures ReadAs(data, entries + [e])
  {
  }

  /** The data is a table of exactly these entries. */
  ghost predicate TableOf(data: seq<Byte>, entries: seq<Entry>) {
    HasTable(data) && |entries| == Count(data) && ReadAs(data, entries)
  }

  function Entries(s: seq<Elt<Entry>>): (e: seq<Entry>)
    ensures |e| == |s|
  {
    seq(|s|, i requires 0 <= i < |s| => s[i].data)
  }

  method AddEntry(head: Elt?<Entry>, entry: Entry, ghost s: seq<Elt<Entry>>)
    returns (head': Elt<Entry>, ghost added: Elt<Entry>)
    requires List(head, s)
    modifies s
    ensures fresh(added) && added.data == entry && List(head', s + [added])
  {
    var e := new Elt(entry);
    added := e;
    head' := Append(head, e, s);
  }

  // ---- which rows are refused, and which read past the data ----

  function RowAt(i: nat): nat {
    HEADER_SIZE + ENTRY_SIZE * i
  }

  predicate SizesFit(data: seq<Byte>, at: nat)
    requires at + ENTRY_SIZE <= |data|
  {
    LE32(data, at + 4) <= LE32(data, at + 8)
  }

  /** There is a NUL in the data at or behind the key's offset. */
  ghost predicate KeyInside(data: seq<Byte>, at: nat)
    requires HEADER_SIZE <= |data| && at + ENTRY_SIZE <= |data|
  {
    exists k | LE32(data, 8) + LE16(data, at) <= k < |data| :: data[k] == 0
  }

  /** The value's bytes, if it has any, lie in the data. */
  predicate ValueInside(data: seq<Byte>, at: nat)
    requires HEADER_SIZE <= |data| && at + ENTRY_SIZE <= |data|
  {
    var size := LE32(data, at + 4);
    size == 0 || LE32(data, 0x0C) + LE32(data, at + 0x0C) + size <= |data|
  }

  lemma RowExactly(data: seq<Byte>, at: nat)
    requires HEADER_SIZE <= |data| && at + ENTRY_SIZE <= |data|
    ensures ReadAt(data, at).Unfit? <==> !SizesFit(data, at)
    ensures ReadAt(data, at).StrayKey? <==> SizesFit(data, at) && !KeyInside(data, at)
    ensures ReadAt(data, at).StrayValue? <==> SizesFit(data, at) && KeyInside(data, at) && !ValueInside(data, at)
  {
    var key := LE32(data, 8) + LE16(data, at);
    if key <= |data| {
      var end := StrEnd(data, key);
      assert end < |data| ==> data[end] == 0;
    }
  }

  /** Row k is there, and all rows before it give entries. */
  ghost predicate RowsBefore(data: seq<Byte>, k: nat)
    requires HasTable(data)
  {
    k < Count(data) && forall j: nat | j < k :: ReadRow(data, j).Got?
  }

  ghost predicate FirstBad(data: seq<Byte>, i: nat)
    requires HasTable(data)
  {
    RowsBefore(data, i) && !ReadRow(data, i).Got?
  }

  /** Loading reads past the data, as far as it depends on the data. */
  ghost predicate Strays(data: seq<Byte>) {
    HasTable(data) && exists i: nat :: FirstBad(data, i) && (ReadRow(data, i).StrayKey? || ReadRow(data, i).StrayValue?)
  }

  ghost predicate RowGood(data: seq<Byte>, i: nat)
    requires HasTable(data) && i < Count(data)
  {
    SizesFit(data, RowAt(i)) && KeyInside(data, RowAt(i)) && ValueInside(data, RowAt(i))
  }

  /**
    It does exactly if behind rows whose sizes fit and whose key and value lie in the data there is one whose sizes
    fit but whose key has no NUL behind it in the data, or whose value ends behind the data.
   */
  lemma StraysExactly(data: seq<Byte>)
    ensures Strays(data) <==>
            && HasTable(data)
            && exists i: nat | i < Count(data) ::
                 && (forall j: nat | j < i :: RowGood(data, j))
                 && SizesFit(data, RowAt(i)) && !(KeyInside(data, RowAt(i)) && ValueInside(data, RowAt(i)))
  {
    if HasTable(data) {
      forall i: nat | i < Count(data)
        ensures ReadRow(data, i).Got? <==> RowGood(data, i)
        ensures ReadRow(data, i).StrayKey? || ReadRow(data, i).StrayValue? <==>
                SizesFit(data, RowAt(i)) && !(KeyInside(data, RowAt(i)) && ValueInside(data, RowAt(i)))
      {
        RowExactly(data, RowAt(i));
      }
      if i: nat :| i < Count(data) && (forall j: nat | j < i :: RowGood(data, j))
                   && SizesFit(data, RowAt(i)) && !(KeyInside(data, RowAt(i)) && ValueInside(data, RowAt(i))) {
        assert FirstBad(data, i);
      }
    }
  }

  /** Thirty-six bytes with one row, whose key would begin where the data ends. */
  lemma StrayExample() returns (data: seq<Byte>)
    ensures |data| == HEADER_SIZE + ENTRY_SIZE && HasTable(data) && ReadRow(data, 0) == StrayKey && Strays(data)
  {
    var head := MAGIC + PutLE32(0x101) + PutLE32(0x24) + PutLE32(0x24) + PutLE32(1);
    data := head + Zeros(ENTRY_SIZE);
    assert data[8] == 0x24 && data[9] == 0 && data[10] == 0 && data[11] == 0;
    assert data[0x10] == 1 && data[0x11] == 0 && data[0x12] == 0 && data[0x13] == 0;
    assert data[..4] == MAGIC;
    assert FirstBad(data, 0);
  }

  // ---- sfo_load_from_memory ----

  /** What becomes of a row, given whether memory for the entry, and then for its key and value, is granted. */
  function RowOutcome(row: Row, forEntry: bool, forParts: bool): Outcome {
    if !forEntry || row.Unfit? then Refused
    else if row.StrayKey? then Strayed
    else if !forParts then Refused
    else if row.StrayValue? then Strayed
    else Loaded
  }

  /** The row for which memory was refused, if any: for the entry itself, or then for its key or value. */
  datatype Memory = Granted | NoEntry(row: nat) | NoParts(row: nat)

  /**
    Nothing but the data, or memory running out, decides the outcome. With memory, it strays exactly on data that
    make it, and refuses exactly data without a table or with unfit sizes before anything strays. Without, the rows
    before the failure are good, and a key that strays has strayed before memory for it is asked for.
   */
  method LoadFromMemory(data: seq<Byte>)
    returns (outcome: Outcome, head: Elt?<Entry>, ghost s: seq<Elt<Entry>>, ghost memory: Memory)
    ensures outcome == Loaded ==> List(head, s) && TableOf(data, Entries(s))
    ensures outcome == Strayed ==> Strays(data)
    ensures outcome == Refused ==> head == null
    ensures match memory
            case Granted =>
              && (outcome == Strayed <==> Strays(data))
              && (outcome == Refused <==>
                  !HasTable(data) || exists i: nat :: FirstBad(data, i) && ReadRow(data, i).Unfit?)
            case NoEntry(k) => outcome == Refused && HasTable(data) && RowsBefore(data, k)
            case NoParts(k) =>
              && outcome == Refused && HasTable(data) && RowsBefore(data, k)
              && !ReadRow(data, k).Unfit? && !ReadRow(data, k).StrayKey?
  {
    head, s, memory := null, [], Granted;
    if |data| < HEADER_SIZE { return Refused, null, [], Granted; }
    if data[..4] != MAGIC { return Refused, null, [], Granted; }
    var count := Count(data);
    if |data| < HEADER_SIZE + ENTRY_SIZE * count { return Refused, null, [], Granted; }
    ghost var read := [];
    var i := 0;
    while i < count
      invariant i == |s| <= count && fresh(s)
      invariant List(head, s)
      invariant |read| == i && Entries(s) == read
      invariant ReadAs(data, read)
    {
      var forEntry: bool := *;
      var forParts: bool := *;
      var row := ReadRow(data, i);
      var fate := RowOutcome(row, forEntry, forParts);
      if fate != Loaded {
        memory := if !forEntry then NoEntry(i) else if RowOutcome(row, true, true) != fate then NoParts(i) else Granted;
        FirstFailure(data, read);
        return fate, null, [], memory;
      }
      ghost var added;
      head, added := AddEntry(head, row.entry, s);
      ReadOne(data, read, row.entry);
      s, read := s + [added], read + [row.entry];
      i := i + 1;
    }
    AllGood(data, read);
    outcome := Loaded;
  }

  /** Where the rows before have given entries, the next one decides. */
  lemma FirstFailure(data: seq<Byte>, read: seq<Entry>)
    requires HasTable(data) && |read| < Count(data) && ReadAs(data, read)
    ensures RowsBefore(data, |read|)
    ensures !ReadRow(data, |read|).Got? ==> FirstBad(data, |read|) && forall i: nat | FirstBad(data, i) :: i == |read|
  {
    forall i: nat | i < |read| ensures ReadRow(data, i).Got? {
      assert ReadRow(data, i) == Got(read[i]);
    }
  }

  lemma AllGood(data: seq<Byte>, read: seq<Entry>)
    requires TableOf(data, read)
    ensures forall i: nat :: !FirstBad(data, i)
  {
    forall i: nat | i < |read| ensures ReadRow(data, i).Got? {
      assert ReadRow(data, i) == Got(read[i]);
    }
  }

  /** The first entry with the key, if there is one. */
  method FindEntry(head: Elt?<Entry>, key: seq<Byte>, ghost s: seq<Elt<Entry>>)
    returns (entry: Elt?<Entry>, ghost k: nat)
    requires List(head, s)
    ensures entry == null <==> forall e | e in Entries(s) :: e.key != key
    ensures entry != null ==>
              k < |s| && entry == s[k] && entry.data.key == key && forall j | 0 <= j < k :: s[j].data.key != key
  {
    entry, k := head, 0;
    while entry != null
      invariant k <= |s| && entry == if k < |s| then s[k] else null
      invariant forall j | 0 <= j < k :: s[j].data.key != key
      decreases |s| - k
    {
      if entry.data.key == key {
        assert Entries(s)[k].key == key;
        return;
      }
      entry, k := entry.next, k + 1;
    }
  }

  // ---- writing a table, and the round trip ----

  function KeyParts(entries: seq<Entry>): (p: seq<seq<Byte>>)
    ensures |p| == |entries| && forall i | 0 <= i < |p| :: p[i] == entries[i].key + [0]
  {
    seq(|entries|, i requires 0 <= i < |entries| => entries[i].key + [0])
  }

  function ValueParts(entries: seq<Entry>): (p: seq<seq<Byte>>)
    ensures |p| == |entries| && forall i | 0 <= i < |p| :: p[i] == entries[i].value
  {
    seq(|entries|, i requires 0 <= i < |entries| => entries[i].value)
  }

  function KeyOffset(entries: seq<Entry>, i: nat): nat
    requires i <= |entries|
  {
    |Joined(KeyParts(entries)[..i])|
  }

  function ValueOffset(entries: seq<Entry>, i: nat): nat
    requires i <= |entries|
  {
    |Joined(ValueParts(entries)[..i])|
  }

  /** Values fill their area with zeros, and every number fits its field. */
  ghost predicate Storable(entries: seq<Entry>, pad: nat) {
    && (forall e | e in entries ::
          && 0 !in e.key && e.format < 0x1_0000 && e.size <= e.area < 0x1_0000_0000
          && |e.value| == e.area && e.value[e.size..] == Zeros(e.area - e.size))
    && (forall i | 0 <= i < |entries| :: KeyOffset(entries, i) < 0x1_0000 && ValueOffset(entries, i) < 0x1_0000_0000)
    && HEADER_SIZE + ENTRY_SIZE * |entries| + KeyOffset(entries, |entries|) + pad < 0x1_0000_0000
  }

  function RowBytes(entries: seq<Entry>, i: nat): (row: seq<Byte>)
    requires i < |entries| && entries[i].format < 0x1_0000 && entries[i].size < 0x1_0000_0000
    requires entries[i].area < 0x1_0000_0000
    requires KeyOffset(entries, i) < 0x1_0000 && ValueOffset(entries, i) < 0x1_0000_0000
    ensures |row| == ENTRY_SIZE
  {
    PutLE16(KeyOffset(entries, i)) + PutLE16(entries[i].format) + PutLE32(entries[i].size) + PutLE32(entries[i].area)
    + PutLE32(ValueOffset(entries, i))
  }

  ghost function RowParts(entries: seq<Entry>, pad: nat): (p: seq<seq<Byte>>)
    requires Storable(entries, pad)
    ensures |p| == |entries| && forall i | 0 <= i < |p| :: p[i] == RowBytes(entries, i)
  {
    seq(|entries|, i requires 0 <= i < |entries| => RowBytes(entries, i))
  }

  function KeyTable(entries: seq<Entry>): nat {
    HEADER_SIZE + ENTRY_SIZE * |entries|
  }

  function ValueTable(entries: seq<Entry>, pad: nat): nat {
    KeyTable(entries) + KeyOffset(entries, |entries|) + pad
  }

  ghost function HeaderBytes(entries: seq<Entry>, pad: nat, version: nat): (h: seq<Byte>)
    requires Storable(entries, pad) && version < 0x1_0000_0000
    ensures |h| == HEADER_SIZE
  {
    MAGIC + PutLE32(version) + PutLE32(KeyTable(entries)) + PutLE32(ValueTable(entries, pad)) + PutLE32(|entries|)
  }

  /** The table as a file: header, rows, keys, padding, values. */
  ghost function Image(entries: seq<Entry>, pad: nat, version: nat): seq<Byte>
    requires Storable(entries, pad) && version < 0x1_0000_0000
  {
    HeaderBytes(entries, pad, version) + Joined(RowParts(entries, pad)) + Joined(KeyParts(entries)) + Zeros(pad)
    + Joined(ValueParts(entries))
  }

  /** part stands in data at index at. */
  ghost predicate Holds(data: seq<Byte>, at: nat, part: seq<Byte>) {
    at + |part| <= |data| && forall i | 0 <= i < |part| :: data[at + i] == part[i]
  }

  lemma HoldsPart(data: seq<Byte>, at: nat, part: seq<Byte>, k: nat, sub: seq<Byte>)
    requires Holds(data, at, part) && Holds(part, k, sub)
    ensures Holds(data, at + k, sub)
  {
    forall i | 0 <= i < |sub| ensures data[at + k + i] == sub[i] {
      assert data[at + (k + i)] == part[k + i];
    }
  }

  lemma FiveParts(h: seq<Byte>, r: seq<Byte>, k: seq<Byte>, z: seq<Byte>, v: seq<Byte>, at: nat, keys: nat, values: nat)
    requires at == |h| && keys == at + |r| && values == keys + |k| + |z|
    ensures var data := h + r + k + z + v;
            Holds(data, 0, h) && Holds(data, at, r) && Holds(data, keys, k) && Holds(data, values, v)
  {
  }

  lemma JoinedHolds(parts: seq<seq<Byte>>, k: nat)
    requires k < |parts|
    ensures Holds(Joined(parts), |Joined(parts[..k])|, parts[k])
  {
    JoinedFits(parts, k);
    forall i | 0 <= i < |parts[k]| ensures Joined(parts)[|Joined(parts[..k])| + i] == parts[k][i] {
      JoinedAt(parts, k, i);
    }
  }

  lemma PartHeld(data: seq<Byte>, at: nat, parts: seq<seq<Byte>>, i: nat)
    requires Holds(data, at, Joined(parts)) && i < |parts|
    ensures Holds(data, at + |Joined(parts[..i])|, parts[i])
  {
    JoinedHolds(parts, i);
    HoldsPart(data, at, Joined(parts), |Joined(parts[..i])|, parts[i]);
  }

  lemma {:induction false} RowOffset(rows: seq<seq<Byte>>, i: nat)
    requires i <= |rows| && forall j | 0 <= j < |rows| :: |rows[j]| == ENTRY_SIZE
    ensures |Joined(rows[..i])| == ENTRY_SIZE * i
    decreases i
  {
    if i > 0 {
      RowOffset(rows, i - 1);
      assert rows[..i][..i - 1] == rows[..i - 1];
    }
  }

  lemma RowsSize(entries: seq<Entry>, pad: nat)
    requires Storable(entries, pad)
    ensures |Joined(RowParts(entries, pad))| == ENTRY_SIZE * |entries|
  {
    var rows := RowParts(entries, pad);
    assert rows[..|entries|] == rows;
    RowOffset(rows, |entries|);
  }

  /** The sections of the table stand in data where the header says; what else data holds does not matter. */
  ghost predicate Laid(data: seq<Byte>, entries: seq<Entry>, pad: nat, version: nat)
    requires Storable(entries, pad) && version < 0x1_0000_0000
  {
    && Holds(data, 0, HeaderBytes(entries, pad, version))
    && Holds(data, HEADER_SIZE, Joined(RowParts(entries, pad)))
    && Holds(data, KeyTable(entries), Joined(KeyParts(entries)))
    && Holds(data, ValueTable(entries, pad), Joined(ValueParts(entries)))
  }

  lemma ImageIsLaid(entries: seq<Entry>, pad: nat, version: nat)
    requires Storable(entries, pad) && version < 0x1_0000_0000
    ensures Laid(Image(entries, pad, version), entries, pad, version)
  {
    RowsSize(entries, pad);
    assert KeyParts(entries)[..|entries|] == KeyParts(entries);
    FiveParts(HeaderBytes(entries, pad, version), Joined(RowParts(entries, pad)), Joined(KeyParts(entries)), Zeros(pad),
              Joined(ValueParts(entries)), HEADER_SIZE, KeyTable(entries), ValueTable(entries, pad));
  }

  lemma HeldNumbers(data: seq<Byte>, at: nat, part: seq<Byte>)
    requires Holds(data, at, part)
    ensures |part| == 2 ==> LE16(data, at) == LE16(part, 0)
    ensures |part| == 4 ==> LE32(data, at) == LE32(part, 0)
  {
    assert forall i | 0 <= i < |part| :: data[at + i] == part[i];
  }

  /** The fields of a stored header. */
  lemma HeaderReads(data: seq<Byte>, version: nat, keys: nat, values: nat, count: nat)
    requires version < 0x1_0000_0000 && keys < 0x1_0000_0000 && values < 0x1_0000_0000 && count < 0x1_0000_0000
    requires Holds(data, 0, MAGIC + PutLE32(version) + PutLE32(keys) + PutLE32(values) + PutLE32(count))
    ensures |data| >= HEADER_SIZE && data[..4] == MAGIC && LE32(data, 8) == keys && LE32(data, 0x0C) == values
    ensures Count(data) == count
  {
    var h := MAGIC + PutLE32(version) + PutLE32(keys) + PutLE32(values) + PutLE32(count);
    assert data[..4] == h[..4];
    HoldsPart(data, 0, h, 8, PutLE32(keys));
    HoldsPart(data, 0, h, 0x0C, PutLE32(values));
    HoldsPart(data, 0, h, 0x10, PutLE32(count));
    HeldNumbers(data, 8, PutLE32(keys));
    HeldNumbers(data, 0x0C, PutLE32(values));
    HeldNumbers(data, 0x10, PutLE32(count));
  }

  lemma RowReads(data: seq<Byte>, at: nat, key: nat, format: nat, size: nat, area: nat, value: nat)
    requires key < 0x1_0000 && format < 0x1_0000 && size < 0x1_0000_0000 && area < 0x1_0000_0000
    requires value < 0x1_0000_0000
    requires Holds(data, at, PutLE16(key) + PutLE16(format) + PutLE32(size) + PutLE32(area) + PutLE32(value))
    ensures at + ENTRY_SIZE <= |data|
    ensures LE16(data, at) == key && LE16(data, at + 2) == format && LE32(data, at + 4) == size
    ensures LE32(data, at + 8) == area && LE32(data, at + 0x0C) == value
  {
    var row := PutLE16(key) + PutLE16(format) + PutLE32(size) + PutLE32(area) + PutLE32(value);
    HoldsPart(data, at, row, 0, PutLE16(key));
    HoldsPart(data, at, row, 2, PutLE16(format));
    HoldsPart(data, at, row, 4, PutLE32(size));
    HoldsPart(data, at, row, 8, PutLE32(area));
    HoldsPart(data, at, row, 0x0C, PutLE32(value));
    HeldNumbers(data, at, PutLE16(key));
    HeldNumbers(data, at + 2, PutLE16(format));
    HeldNumbers(data, at + 4, PutLE32(size));
    HeldNumbers(data, at + 8, PutLE32(area));
    HeldNumbers(data, at + 0x0C, PutLE32(value));
  }

  lemma KeyReads(data: seq<Byte>, at: nat, key: seq<Byte>)
    requires Holds(data, at, key + [0]) && 0 !in key
    ensures StrEnd(data, at) == at + |key| < |data| && data[at..at + |key|] == key
  {
    var part := key + [0];
    assert data[at + |key|] == part[|key|];
    forall i | 0 <= i < |key| ensures data[at + i] == key[i] != 0 {
      assert data[at + i] == part[i] && key[i] in key;
    }
    forall i | at <= i < at + |key| ensures data[i] != 0 {
      assert data[at + (i - at)] == key[i - at];
    }
  }

  lemma ValueReads(data: seq<Byte>, at: nat, size: nat, value: seq<Byte>)
    requires Holds(data, at, value) && size <= |value| && value[size..] == Zeros(|value| - size)
    ensures at + size <= |data| && data[at..at + size] + Zeros(|value| - size) == value
  {
    assert data[at..at + size] == value[..size];
  }

  /** The numbers of row i are stored at index at. */
  ghost predicate RowStands(data: seq<Byte>, at: nat, entries: seq<Entry>, i: nat)
    requires i < |entries|
  {
    && at + ENTRY_SIZE <= |data|
    && LE16(data, at) == KeyOffset(entries, i) && LE16(data, at + 2) == entries[i].format
    && LE32(data, at + 4) == entries[i].size && LE32(data, at + 8) == entries[i].area
    && LE32(data, at + 0x0C) == ValueOffset(entries, i)
  }

  lemma RowHeld(data: seq<Byte>, rows: seq<seq<Byte>>, i: nat)
    requires Holds(data, HEADER_SIZE, Joined(rows)) && i < |rows|
    requires forall j | 0 <= j < |rows| :: |rows[j]| == ENTRY_SIZE
    ensures Holds(data, HEADER_SIZE + ENTRY_SIZE * i, rows[i])
  {
    PartHeld(data, HEADER_SIZE, rows, i);
    RowOffset(rows, i);
  }

  lemma RowInPlace(data: seq<Byte>, at: nat, entries: seq<Entry>, i: nat)
    requires i < |entries| && entries[i].format < 0x1_0000 && entries[i].size < 0x1_0000_0000
    requires entries[i].area < 0x1_0000_0000
    requires KeyOffset(entries, i) < 0x1_0000 && ValueOffset(entries, i) < 0x1_0000_0000
    requires Holds(data, at, RowBytes(entries, i))
    ensures RowStands(data, at, entries, i)
  {
    RowReads(data, at, KeyOffset(entries, i), entries[i].format, entries[i].size, entries[i].area,
            ValueOffset(entries, i));
  }

  lemma LaidRow(data: seq<Byte>, at: nat, entries: seq<Entry>, pad: nat, i: nat)
    requires Storable(entries, pad) && i < |entries| && Holds(data, HEADER_SIZE, Joined(RowParts(entries, pad)))
    requires at == HEADER_SIZE + ENTRY_SIZE * i
    ensures RowStands(data, at, entries, i)
  {
    RowHeld(data, RowParts(entries, pad), i);
    assert entries[i] in entries;
    RowInPlace(data, at, entries, i);
  }

  lemma LaidHeader(data: seq<Byte>, entries: seq<Entry>, pad: nat, version: nat)
    requires Storable(entries, pad) && version < 0x1_0000_0000 && Laid(data, entries, pad, version)
    ensures HasTable(data) && Count(data) == |entries|
    ensures LE32(data, 8) == KeyTable(entries) && LE32(data, 0x0C) == ValueTable(entries, pad)
  {
    HeaderReads(data, version, KeyTable(entries), ValueTable(entries, pad), |entries|);
    RowsSize(entries, pad);
  }

  ghost predicate KeyStands(data: seq<Byte>, at: nat, e: Entry) {
    at <= |data| && StrEnd(data, at) == at + |e.key| < |data| && data[at..at + |e.key|] == e.key
  }

  ghost predicate ValueStands(data: seq<Byte>, at: nat, e: Entry) {
    e.size <= e.area && at + e.size <= |data| && data[at..at + e.size] + Zeros(e.area - e.size) == e.value
  }

  lemma LaidKey(data: seq<Byte>, keys: nat, key: nat, entries: seq<Entry>, i: nat)
    requires Holds(data, keys, Joined(KeyParts(entries))) && i < |entries| && 0 !in entries[i].key
    requires key == keys + KeyOffset(entries, i)
    ensures KeyStands(data, key, entries[i])
  {
    PartHeld(data, keys, KeyParts(entries), i);
    KeyReads(data, key, entries[i].key);
  }

  lemma LaidValue(data: seq<Byte>, values: nat, value: nat, entries: seq<Entry>, i: nat)
    requires Holds(data, values, Joined(ValueParts(entries))) && i < |entries|
    requires value == values + ValueOffset(entries, i)
    requires entries[i].size <= entries[i].area == |entries[i].value|
    requires entries[i].value[entries[i].size..] == Zeros(entries[i].area - entries[i].size)
    ensures ValueStands(data, value, entries[i])
  {
    PartHeld(data, values, ValueParts(entries), i);
    ValueReads(data, value, entries[i].size, entries[i].value);
  }

  /** A row is read back when its key and its value stand where it says. */
  lemma EntryReads(data: seq<Byte>, at: nat, key: nat, value: nat, e: Entry)
    requires HEADER_SIZE <= |data| && at + ENTRY_SIZE <= |data|
    requires LE32(data, 8) + LE16(data, at) == key && LE32(data, 0x0C) + LE32(data, at + 0x0C) == value
    requires LE16(data, at + 2) == e.format && LE32(data, at + 4) == e.size && LE32(data, at + 8) == e.area
    requires KeyStands(data, key, e) && ValueStands(data, value, e)
    ensures ReadAt(data, at) == Got(e)
  {
    var bytes := if e.size > 0 then data[value..value + e.size] else [];
    assert bytes == data[value..value + e.size];
  }

  /** Loading a stored table reads back every row. */
  lemma LaidReads(data: seq<Byte>, entries: seq<Entry>, pad: nat, version: nat, i: nat)
    requires Storable(entries, pad) && version < 0x1_0000_0000 && Laid(data, entries, pad, version) && i < |entries|
    ensures HEADER_SIZE + ENTRY_SIZE * (i + 1) <= |data| && ReadRow(data, i) == Got(entries[i])
  {
    var at := HEADER_SIZE + ENTRY_SIZE * i;
    var keys, values := KeyTable(entries), ValueTable(entries, pad);
    var key, value := keys + KeyOffset(entries, i), values + ValueOffset(entries, i);
    assert entries[i] in entries;
    LaidHeader(data, entries, pad, version);
    LaidRow(data, at, entries, pad, i);
    LaidKey(data, keys, key, entries, i);
    LaidValue(data, values, value, entries, i);
    EntryReads(data, at, key, value, entries[i]);
  }

  lemma LaidIsTable(data: seq<Byte>, entries: seq<Entry>, pad: nat, version: nat)
    requires Storable(entries, pad) && version < 0x1_0000_0000 && Laid(data, entries, pad, version)
    ensures TableOf(data, entries)
  {
    LaidHeader(data, entries, pad, version);
    forall i | 0 <= i < |entries| ensures ReadRow(data, i) == Got(entries[i]) {
      LaidReads(data, entries, pad, version, i);
    }
  }

  lemma OneTable(data: seq<Byte>, a: seq<Entry>, b: seq<Entry>)
    requires TableOf(data, a) && TableOf(data, b)
    ensures a == b
  {
    forall i | 0 <= i < |a| ensures a[i] == b[i] { assert ReadRow(data, i) == Got(a[i]) == Got(b[i]); }
  }

  /** A stored table loads as the same entries in the same order, and as no others. */
  lemma RoundTrip(entries: seq<Entry>, pad: nat, version: nat, read: seq<Entry>)
    requires Storable(entries, pad) && version < 0x1_0000_0000
    ensures TableOf(Image(entries, pad, version), read) <==> read == entries
  {
    var data := Image(entries, pad, version);
    ImageIsLaid(entries, pad, version);
    LaidIsTable(data, entries, pad, version);
    if TableOf(data, read) { OneTable(data, read, entries); }
  }
}
