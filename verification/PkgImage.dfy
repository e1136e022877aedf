/**
  A package as its format lays it out, byte for byte, and that the set-up takes exactly its numbers and places.

  The places of the fields are those of struct pkg_header and struct pkg_table_entry (RPI/pkg.h), the numbers are
  big-endian. Whatever else the file holds is arbitrary.
 */
module PkgImage {
  import opened Bytes
  import opened Seqs
  import opened CStrings
  import opened Download
  import opened PkgSetup
  import Sfo

  /** One row of the entry table, as far as the set-up reads it. */
  datatype Row = Row(id: nat, offset: nat, size: nat)

  datatype Package = Package(table: nat, rows: seq<Row>, contentType: nat, packageSize: nat)

  predicate IsPackage(p: Package) {
    && p.table < 0x1_0000_0000 && 0 < |p.rows| < 0x1_0000_0000 && p.contentType < 0x1_0000_0000
    && p.packageSize < 0x1_0000_0000_0000_0000
    && forall i | 0 <= i < |p.rows| ::
         p.rows[i].id < 0x1_0000_0000 && p.rows[i].offset < 0x1_0000_0000 && p.rows[i].size < 0x1_0000_0000
  }

  /** The bytes stand in the file from index at on. */
  ghost predicate Stands(file: seq<Byte>, at: nat, bytes: seq<Byte>) {
    at + |bytes| <= |file| && file[at..at + |bytes|] == bytes
  }

  ghost predicate RowStands(file: seq<Byte>, at: nat, r: Row)
    requires r.id < 0x1_0000_0000 && r.offset < 0x1_0000_0000 && r.size < 0x1_0000_0000
  {
    && at + 0x20 <= |file|
    && Stands(file, at, PutBE32(r.id)) && Stands(file, at + 0x10, PutBE32(r.offset))
    && Stands(file, at + 0x14, PutBE32(r.size))
  }

  ghost predicate PackageStands(file: seq<Byte>, p: Package)
    requires IsPackage(p)
  {
    && 0x2000 <= |file| && p.table + 0x20 * |p.rows| <= |file|
    && Stands(file, 0, [0x7F, 0x43, 0x4E, 0x54])
    && Stands(file, 0x10, PutBE32(|p.rows|)) && Stands(file, 0x18, PutBE32(p.table))
    && Stands(file, 0x74, PutBE32(p.contentType)) && Stands(file, 0x430, PutBE64(p.packageSize))
    && forall i | 0 <= i < |p.rows| :: RowStands(file, p.table + 0x20 * i, p.rows[i])
  }

  lemma Read32(file: seq<Byte>, at: nat, n: nat)
    requires n < 0x1_0000_0000 && Stands(file, at, PutBE32(n))
    ensures at + 4 <= |file| && BE32(file, at) == n
  {
    BE32IsBigEndian(file, at);
    PutBE32Is(n);
  }

  lemma Read64(file: seq<Byte>, at: nat, n: nat)
    requires n < 0x1_0000_0000_0000_0000 && Stands(file, at, PutBE64(n))
    ensures at + 8 <= |file| && BE64(file, at) == n
  {
    BE64IsBigEndian(file, at);
    PutBE64Is(n);
  }

  /** The header is read as it was written. */
  lemma HeaderReads(file: seq<Byte>, p: Package)
    requires IsPackage(p) && PackageStands(file, p)
    ensures HasTable(file) && TablePlace(file) == Place(p.table, 0x20 * |p.rows|) && BE32(file, 0x10) == |p.rows|
    ensures BE32(file, 0x74) == p.contentType && BE64(file, 0x430) == p.packageSize
  {
    Read32(file, 0x10, |p.rows|);
    Read32(file, 0x18, p.table);
    Read32(file, 0x74, p.contentType);
    Read64(file, 0x430, p.packageSize);
  }

  /** A number in a part of the file is the number in the file. */
  lemma SlicedNumber(file: seq<Byte>, from: nat, to: nat, at: nat)
    requires from <= to <= |file| && at + 4 <= to - from
    ensures BE32(file[from..to], at) == BE32(file, from + at)
  {
    var part := file[from..to];
    assert part[at] == file[from + at] && part[at + 1] == file[from + at + 1];
    assert part[at + 2] == file[from + at + 2] && part[at + 3] == file[from + at + 3];
  }

  /** And so is every row of the entry table. */
  lemma RowReads(file: seq<Byte>, p: Package, i: nat)
    requires IsPackage(p) && PackageStands(file, p) && i < |p.rows|
    ensures var table := file[p.table..p.table + 0x20 * |p.rows|];
            EntryId(table, i) == p.rows[i].id && EntryPlace(table, i) == Place(p.rows[i].offset, p.rows[i].size)
  {
    var at, to := p.table + 0x20 * i, p.table + 0x20 * |p.rows|;
    assert RowStands(file, at, p.rows[i]);
    Read32(file, at, p.rows[i].id);
    Read32(file, at + 0x10, p.rows[i].offset);
    Read32(file, at + 0x14, p.rows[i].size);
    SlicedNumber(file, p.table, to, 0x20 * i);
    SlicedNumber(file, p.table, to, 0x20 * i + 0x10);
    SlicedNumber(file, p.table, to, 0x20 * i + 0x14);
  }

  /** The place in the last row with the id; 0 and 0 without one. */
  function LastPlace(rows: seq<Row>, id: nat): Place {
    if rows == [] then Place(0, 0)
    else
      var last := rows[|rows| - 1];
      if last.id == id then Place(last.offset, last.size) else LastPlace(rows[..|rows| - 1], id)
  }

  lemma {:induction false} LastIsEntry(table: seq<Byte>, rows: seq<Row>, n: nat, id: nat)
    requires n <= |rows| && 0x20 * |rows| <= |table|
    requires forall i: nat | i < |rows| ::
               EntryId(table, i) == rows[i].id && EntryPlace(table, i) == Place(rows[i].offset, rows[i].size)
    ensures LastEntry(table, n, id, LastPlace(rows[..n], id))
    decreases n
  {
    if n > 0 {
      LastIsEntry(table, rows, n - 1, id);
      assert rows[..n][..n - 1] == rows[..n - 1];
      LastEntryStep(table, n - 1, id, LastPlace(rows[..n - 1], id));
    }
  }

  lemma PlacesRead(file: seq<Byte>, p: Package)
    requires IsPackage(p) && PackageStands(file, p) && HasTable(file)
    ensures EntryIs(file, 0x1000, LastPlace(p.rows, 0x1000)) && EntryIs(file, 0x1200, LastPlace(p.rows, 0x1200))
  {
    HeaderReads(file, p);
    var table := Slice(file, TablePlace(file));
    forall i: nat | i < |p.rows|
      ensures EntryId(table, i) == p.rows[i].id && EntryPlace(table, i) == Place(p.rows[i].offset, p.rows[i].size)
    {
      RowReads(file, p, i);
    }
    assert p.rows[..|p.rows|] == p.rows;
    LastIsEntry(table, p.rows, |p.rows|, 0x1000);
    LastIsEntry(table, p.rows, |p.rows|, 0x1200);
  }

  /** param.sfo is in the file and begins with its magic; the icon is in the file if there is one. */
  predicate Complete(file: seq<Byte>, sfo: Place, icon: Place) {
    && sfo.offset > 0 && sfo.size >= 4 && sfo.offset + sfo.size <= |file|
    && file[sfo.offset..sfo.offset + 4] == [0x00, 0x50, 0x53, 0x46]
    && (icon.offset > 0 && icon.size > 0 ==> icon.offset + icon.size <= |file|)
  }

  /** Which packages can be installed, by what they hold. */
  lemma InstallableExactly(files: seq<seq<Byte>>, p: Package)
    requires files != [] && IsPackage(p) && PackageStands(files[0], p)
    ensures Installable(files) <==>
            && Complete(files[0], LastPlace(p.rows, 0x1000), LastPlace(p.rows, 0x1200))
            && (p.packageSize > 0 ==> |Joined(files)| % 0x1_0000_0000_0000_0000 == p.packageSize)
  {
    var file, sfo, icon := files[0], LastPlace(p.rows, 0x1000), LastPlace(p.rows, 0x1200);
    HeaderReads(file, p);
    PlacesRead(file, p);
    OnlyEntries(file, sfo, icon);
    CompleteIsGood(file, sfo, icon);
  }

  lemma CompleteIsGood(file: seq<Byte>, sfo: Place, icon: Place)
    ensures PlacesGood(file, sfo, icon) <==> Complete(file, sfo, icon)
  {
    if sfo.size >= 4 && sfo.offset + sfo.size <= |file| {
      assert Slice(file, sfo)[..4] == file[sfo.offset..sfo.offset + 4];
    }
  }

  /** What the set-up makes of a package: its numbers, and the bytes at the places its last rows give. */
  ghost predicate Taken(file: seq<Byte>, p: Package, s: Setup) {
    var sfo, icon := LastPlace(p.rows, 0x1000), LastPlace(p.rows, 0x1200);
    && s.contentType == p.contentType && s.packageSize == p.packageSize
    && sfo.offset + sfo.size <= |file| && s.paramSfo == file[sfo.offset..sfo.offset + sfo.size]
    && if icon.offset > 0 && icon.size > 0 then
         icon.offset + icon.size <= |file| && s.icon == Some(file[icon.offset..icon.offset + icon.size])
       else s.icon == None
  }

  lemma OneEntry(file: seq<Byte>, id: nat, a: Place, b: Place)
    requires HasTable(file) && EntryIs(file, id, a) && EntryIs(file, id, b)
    ensures a == b
  {
    OneLastEntry(Slice(file, TablePlace(file)), BE32(file, 0x10), id, a, b);
  }

  lemma EntriesTaken(file: seq<Byte>, paramSfo: seq<Byte>, image: Option<seq<Byte>>, sfo: Place, icon: Place)
    requires HasTable(file) && EntriesFrom(file, paramSfo, image)
    requires EntryIs(file, PARAM_SFO, sfo) && EntryIs(file, ICON0_PNG, icon)
    ensures Within(file, sfo) && paramSfo == Slice(file, sfo)
    ensures if icon.offset > 0 && icon.size > 0 then Within(file, icon) && image == Some(Slice(file, icon))
            else image == None
  {
    var a: Place :| EntryIs(file, PARAM_SFO, a) && Within(file, a) && paramSfo == Slice(file, a);
    OneEntry(file, PARAM_SFO, a, sfo);
    var b: Place :| EntryIs(file, ICON0_PNG, b)
      && if b.offset > 0 && b.size > 0 then Within(file, b) && image == Some(Slice(file, b)) else image == None;
    OneEntry(file, ICON0_PNG, b, icon);
  }

  /** The numbers of the set-up and the bytes it keeps, given the places. */
  lemma TakenAt(file: seq<Byte>, p: Package, s: Setup, sfo: Place, icon: Place)
    requires sfo == LastPlace(p.rows, 0x1000) && icon == LastPlace(p.rows, 0x1200)
    requires s.contentType == p.contentType && s.packageSize == p.packageSize
    requires Within(file, sfo) && s.paramSfo == Slice(file, sfo)
    requires if icon.offset > 0 && icon.size > 0 then Within(file, icon) && s.icon == Some(Slice(file, icon))
             else s.icon == None
    ensures Taken(file, p, s)
  {
  }

  lemma TakenFrom(file: seq<Byte>, p: Package, s: Setup)
    requires IsPackage(p) && PackageStands(file, p) && HasTable(file) && EntriesFrom(file, s.paramSfo, s.icon)
    requires s.contentType == BE32(file, 0x74) && s.packageSize == BE64(file, 0x430)
    ensures Taken(file, p, s)
  {
    var sfo, icon := LastPlace(p.rows, 0x1000), LastPlace(p.rows, 0x1200);
    HeaderReads(file, p);
    PlacesRead(file, p);
    EntriesTaken(file, s.paramSfo, s.icon, sfo, icon);
    TakenAt(file, p, s, sfo, icon);
  }

  lemma TakenFromPackage(files: seq<seq<Byte>>, p: Package, s: Setup)
    requires IsPackage(p) && FromPackage(files, s) && PackageStands(files[0], p)
    ensures Taken(files[0], p, s)
  {
    TakenFrom(files[0], p, s);
  }

  /** The set-up of a package with arbitrary numbers and places. */
  method SetupPackage(files: seq<seq<Byte>>, ghost p: Package) returns (r: Option<Setup>, ghost trips: seq<Trip>)
    requires files != [] && (forall f | f in files :: |f| < UINT64_MAX)
    requires IsPackage(p) && PackageStands(files[0], p)
    ensures r.Some? ==> Taken(files[0], p, r.value)
    ensures TripsFor(files, trips)
    ensures AllSmooth(trips) ==>
              (r.Some? <==>
                && Complete(files[0], LastPlace(p.rows, 0x1000), LastPlace(p.rows, 0x1200))
                && (p.packageSize > 0 ==> |Joined(files)| % 0x1_0000_0000_0000_0000 == p.packageSize))
  {
    r, trips := SetupPrerequisites(files);
    if r.Some? { TakenFromPackage(files, p, r.value); }
    InstallableExactly(files, p);
  }
}
