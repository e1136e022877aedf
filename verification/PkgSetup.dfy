/** pkg_setup_prerequisites (RPI/pkg.c): what it takes from the package, and the piece table it writes. */
module PkgSetup {
  import opened Bytes
  import opened Seqs
  import opened CStrings
  import opened Download
  import Sfo

  const HEADER_SIZE: nat := 0x2000
  const ENTRY_SIZE: nat := 0x20
  const PARAM_SFO: nat := 0x1000
  const ICON0_PNG: nat := 0x1200
  const PKG_MAGIC: seq<Byte> := [0x7F, 0x43, 0x4E, 0x54]

  /** One row of the piece table. */
  datatype Piece = Piece(fileOffset: Uint64, fileSize: Uint64)

  /** Where an entry of the package lies. The code keeps offset and size 0 for an entry it has not found. */
  datatype Place = Place(offset: nat, size: nat)

  datatype Setup = Setup(
    contentType: nat,
    packageSize: nat,
    paramSfo: seq<Byte>,
    icon: Option<seq<Byte>>,
    pieces: seq<Piece>)

  // ---- the entry table ----

  function EntryId(table: seq<Byte>, k: nat): nat
    requires ENTRY_SIZE * (k + 1) <= |table|
  {
    BE32(table, ENTRY_SIZE * k)
  }

  function EntryPlace(table: seq<Byte>, k: nat): Place
    requires ENTRY_SIZE * (k + 1) <= |table|
  {
    Place(BE32(table, ENTRY_SIZE * k + 0x10), BE32(table, ENTRY_SIZE * k + 0x14))
  }

  /** p is the place of the last of the first n entries with this id, or 0, 0 if none of them has it. */
  ghost predicate LastEntry(table: seq<Byte>, n: nat, id: nat, p: Place)
    requires ENTRY_SIZE * n <= |table|
  {
    || (p == Place(0, 0) && forall k: nat | k < n :: EntryId(table, k) != id)
    || (exists k: nat | k < n :: EntryId(table, k) == id && p == EntryPlace(table, k)
          && forall j: nat | k < j < n :: EntryId(table, j) != id)
  }

  lemma LastEntryStep(table: seq<Byte>, n: nat, id: nat, p: Place)
    requires ENTRY_SIZE * (n + 1) <= |table| && LastEntry(table, n, id, p)
    ensures LastEntry(table, n + 1, id, if EntryId(table, n) == id then EntryPlace(table, n) else p)
  {
    if EntryId(table, n) != id && exists k: nat | k < n :: EntryId(table, k) == id {
      var k: nat :| k < n && EntryId(table, k) == id && p == EntryPlace(table, k)
        && forall j: nat | k < j < n :: EntryId(table, j) != id;
      assert forall j: nat | k < j < n + 1 :: EntryId(table, j) != id;
    }
  }

  method FindEntries(table: seq<Byte>, count: nat) returns (sfo: Place, icon: Place)
    requires ENTRY_SIZE * count <= |table|
    ensures LastEntry(table, count, PARAM_SFO, sfo) && LastEntry(table, count, ICON0_PNG, icon)
  {
    sfo, icon := Place(0, 0), Place(0, 0);
    var i := 0;
    while i < count
      invariant i <= count
      invariant LastEntry(table, i, PARAM_SFO, sfo) && LastEntry(table, i, ICON0_PNG, icon)
    {
      LastEntryStep(table, i, PARAM_SFO, sfo);
      LastEntryStep(table, i, ICON0_PNG, icon);
      var id := EntryId(table, i);
      if id == PARAM_SFO {
        sfo := EntryPlace(table, i);
      } else if id == ICON0_PNG {
        icon := EntryPlace(table, i);
      }
      i := i + 1;
    }
  }

  // ---- the piece table ----

  function Sum(sizes: seq<Uint64>): nat {
    if sizes == [] then 0 else Sum(sizes[..|sizes| - 1]) + sizes[|sizes| - 1]
  }

  function Sizes(pieces: seq<Piece>): (s: seq<Uint64>)
    ensures |s| == |pieces|
  {
    seq(|pieces|, i requires 0 <= i < |pieces| => pieces[i].fileSize)
  }

  /** Each piece's offset is the running sum, in 64 bits, of the sizes before it. */
  ghost predicate RunningOffsets(pieces: seq<Piece>) {
    forall i | 0 <= i < |pieces| :: pieces[i].fileOffset == Sum(Sizes(pieces)[..i]) % UINT64
  }

  /** The pieces lie end to end from 0 to total. */
  ghost predicate Tile(pieces: seq<Piece>, total: nat) {
    && (if pieces == [] then total == 0
        else pieces[0].fileOffset == 0 && pieces[|pieces| - 1].fileOffset + pieces[|pieces| - 1].fileSize == total)
    && forall i {:trigger pieces[i].fileSize} | 0 <= i < |pieces| - 1 ::
         pieces[i].fileOffset + pieces[i].fileSize == pieces[i + 1].fileOffset
  }

  predicate Covers(p: Piece, x: nat) {
    p.fileOffset <= x < p.fileOffset + p.fileSize
  }

  lemma {:induction false} SumTake(sizes: seq<Uint64>, i: nat)
    requires i <= |sizes|
    ensures Sum(sizes[..i]) <= Sum(sizes)
    decreases |sizes|
  {
    if i < |sizes| {
      SumTake(sizes[..|sizes| - 1], i);
      assert sizes[..|sizes| - 1][..i] == sizes[..i];
    } else {
      assert sizes[..i] == sizes;
    }
  }

  lemma SumStep(sizes: seq<Uint64>, i: nat)
    requires i < |sizes|
    ensures Sum(sizes[..i + 1]) == Sum(sizes[..i]) + sizes[i]
  {
    assert sizes[..i + 1][..i] == sizes[..i];
  }

  lemma UnwrappedOffset(pieces: seq<Piece>, i: nat)
    requires RunningOffsets(pieces) && Sum(Sizes(pieces)) < UINT64 && i < |pieces|
    ensures pieces[i].fileOffset == Sum(Sizes(pieces)[..i])
    ensures pieces[i].fileOffset + pieces[i].fileSize == Sum(Sizes(pieces)[..i + 1])
  {
    SumTake(Sizes(pieces), i);
    SumStep(Sizes(pieces), i);
  }

  /** Offsets that end at the package size tile the package if the sizes add up without wrapping, and only then. */
  lemma TilesExactly(pieces: seq<Piece>, total: nat)
    requires RunningOffsets(pieces) && Sum(Sizes(pieces)) % UINT64 == total
    ensures Tile(pieces, total) <==> Sum(Sizes(pieces)) < UINT64
  {
    var sizes := Sizes(pieces);
    assert sizes[..|pieces|] == sizes;
    if Sum(sizes) < UINT64 {
      forall i | 0 <= i < |pieces| - 1 ensures pieces[i].fileOffset + pieces[i].fileSize == pieces[i + 1].fileOffset {
        UnwrappedOffset(pieces, i);
        UnwrappedOffset(pieces, i + 1);
      }
      if pieces != [] {
        UnwrappedOffset(pieces, 0);
        UnwrappedOffset(pieces, |pieces| - 1);
      }
    } else if Tile(pieces, total) {
      TileSums(pieces, total, |pieces|);
    }
  }

  lemma {:induction false} TileSums(pieces: seq<Piece>, total: nat, i: nat)
    requires Tile(pieces, total) && 0 < i <= |pieces|
    ensures pieces[i - 1].fileOffset + pieces[i - 1].fileSize == Sum(Sizes(pieces)[..i])
    decreases i
  {
    SumStep(Sizes(pieces), i - 1);
    if i > 1 {
      TileSums(pieces, total, i - 1);
      assert pieces[i - 2].fileOffset + pieces[i - 2].fileSize == pieces[i - 1].fileOffset;
    } else {
      assert Sizes(pieces)[..0] == [];
    }
  }

  lemma {:induction false} TileOrder(pieces: seq<Piece>, total: nat, i: nat, j: nat)
    requires Tile(pieces, total) && i < j < |pieces|
    ensures pieces[i].fileOffset + pieces[i].fileSize <= pieces[j].fileOffset
    decreases j
  {
    assert pieces[j - 1].fileOffset + pieces[j - 1].fileSize == pieces[j].fileOffset;
    if i < j - 1 { TileOrder(pieces, total, i, j - 1); }
  }

  lemma {:induction false} PieceOf(pieces: seq<Piece>, total: nat, n: nat, x: nat) returns (k: nat)
    requires Tile(pieces, total) && 0 < n <= |pieces| && x < pieces[n - 1].fileOffset + pieces[n - 1].fileSize
    ensures k < n && Covers(pieces[k], x)
    decreases n
  {
    if Covers(pieces[n - 1], x) {
      k := n - 1;
    } else {
      assert n >= 2 ==> pieces[n - 2].fileOffset + pieces[n - 2].fileSize == pieces[n - 1].fileOffset;
      k := PieceOf(pieces, total, n - 1, x);
    }
  }

  /** In a tiling every byte of the package lies in exactly one piece. */
  lemma TiledOnce(pieces: seq<Piece>, total: nat, x: nat) returns (k: nat)
    requires Tile(pieces, total) && x < total
    ensures k < |pieces| && Covers(pieces[k], x)
    ensures forall i | 0 <= i < |pieces| && i != k :: !Covers(pieces[i], x)
  {
    k := PieceOf(pieces, total, |pieces|, x);
    forall i | 0 <= i < |pieces| && i != k ensures !Covers(pieces[i], x) {
      TileOrder(pieces, total, if i < k then i else k, if i < k then k else i);
    }
  }

  // ---- the whole set-up ----

  predicate Within(file: seq<Byte>, p: Place) {
    p.offset + p.size <= |file|
  }

  function Slice(file: seq<Byte>, p: Place): (s: seq<Byte>)
    requires Within(file, p)
    ensures |s| == p.size
  {
    file[p.offset..p.offset + p.size]
  }

  /** The entry table of the package in file. */
  function TablePlace(file: seq<Byte>): Place
    requires HEADER_SIZE <= |file|
  {
    Place(BE32(file, 0x18), ENTRY_SIZE * BE32(file, 0x10))
  }

  /** The file is a package with a non-empty entry table inside it. */
  predicate HasTable(file: seq<Byte>) {
    && HEADER_SIZE <= |file| && file[..4] == PKG_MAGIC
    && BE32(file, 0x10) > 0 && Within(file, TablePlace(file))
  }

  ghost predicate EntryIs(file: seq<Byte>, id: nat, p: Place)
    requires HasTable(file)
  {
    LastEntry(Slice(file, TablePlace(file)), BE32(file, 0x10), id, p)
  }

  /** param.sfo is the bytes at its entry's place; the icon is too, or its entry is missing or empty. */
  ghost predicate EntriesFrom(file: seq<Byte>, paramSfo: seq<Byte>, icon: Option<seq<Byte>>)
    requires HasTable(file)
  {
    && (exists p: Place :: EntryIs(file, PARAM_SFO, p) && p.offset > 0 && Within(file, p)
          && paramSfo == Slice(file, p) && |paramSfo| >= 4 && paramSfo[..4] == Sfo.MAGIC)
    && (exists p: Place :: EntryIs(file, ICON0_PNG, p)
          && if p.offset > 0 && p.size > 0 then Within(file, p) && icon == Some(Slice(file, p)) else icon == None)
  }

  /** The rows for the files, the first with the size reported with the header: its length, or UINT64_MAX for none. */
  ghost predicate PiecesFrom(files: seq<seq<Byte>>, pieces: seq<Piece>, packageSize: nat)
    requires files != []
  {
    && |pieces| == |files| && RunningOffsets(pieces)
    && (pieces[0].fileSize == |files[0]| || pieces[0].fileSize == UINT64_MAX)
    && (forall i | 0 < i < |files| :: pieces[i].fileSize == |files[i]|)
    && (packageSize > 0 ==> Sum(Sizes(pieces)) % UINT64 == packageSize)
    && (packageSize > 0 && |files| == 1 ==> pieces[0].fileSize == packageSize)
  }

  ghost predicate FromPackage(files: seq<seq<Byte>>, s: Setup) {
    && files != [] && HasTable(files[0])
    && s.contentType == BE32(files[0], 0x74) && s.packageSize == BE64(files[0], 0x430)
    && EntriesFrom(files[0], s.paramSfo, s.icon)
    && PiecesFrom(files, s.pieces, s.packageSize)
  }

  /** The last entries with the two ids lie where they can be read, and param.sfo starts like one. */
  ghost predicate EntriesGood(file: seq<Byte>)
    requires HasTable(file)
  {
    exists sfo: Place, icon: Place :: EntryIs(file, PARAM_SFO, sfo) && EntryIs(file, ICON0_PNG, icon)
      && PlacesGood(file, sfo, icon)
  }

  predicate PlacesGood(file: seq<Byte>, sfo: Place, icon: Place) {
    && sfo.offset > 0 && sfo.size >= 4 && Within(file, sfo) && Slice(file, sfo)[..4] == Sfo.MAGIC
    && (icon.offset > 0 && icon.size > 0 ==> Within(file, icon))
  }

  /** What the set-up accepts when no download fails or is cut short. */
  ghost predicate Installable(files: seq<seq<Byte>>) {
    && files != [] && HasTable(files[0]) && EntriesGood(files[0])
    && (BE64(files[0], 0x430) > 0 ==> |Joined(files)| % UINT64 == BE64(files[0], 0x430))
  }

  /** The same when firstSize is taken for the length of the first file. */
  ghost predicate InstallableAs(files: seq<seq<Byte>>, firstSize: nat) {
    && files != [] && HasTable(files[0]) && EntriesGood(files[0])
    && (BE64(files[0], 0x430) > 0 ==> EndsAt(files, firstSize, BE64(files[0], 0x430)))
  }

  /** The sizes, of which firstSize is the first, end at packageSize in 64 bits. */
  predicate EndsAt(files: seq<seq<Byte>>, firstSize: nat, packageSize: nat)
    requires files != []
  {
    (firstSize + |Joined(files[1..])|) % UINT64 == packageSize
  }

  lemma {:induction false} JoinedFirst(files: seq<seq<Byte>>)
    requires files != []
    ensures |Joined(files)| == |files[0]| + |Joined(files[1..])|
    decreases |files|
  {
    var n := |files| - 1;
    if n == 0 {
      assert files[..0] == [];
    } else {
      JoinedFirst(files[..n]);
      assert files[..n][1..] == files[1..][..n - 1];
    }
  }

  /** What the server says the length of the file is: nothing is kept as UINT64_MAX. */
  function Reported(t: Trip): nat {
    if Counted(t) then |t.file| else UINT64_MAX
  }

  /** Exchanges for these files, with answers the servers may give. */
  ghost predicate TripsFor(files: seq<seq<Byte>>, trips: seq<Trip>) {
    forall t | t in trips :: t.file in files && Honest(t)
  }

  ghost predicate AllSmooth(trips: seq<Trip>) {
    forall t | t in trips :: Smooth(t)
  }

  lemma OneTrip(files: seq<seq<Byte>>, t: Trip)
    ensures TripsFor(files, [t]) <==> t.file in files && Honest(t)
    ensures AllSmooth([t]) <==> Smooth(t)
  {
    assert t in [t];
  }

  /** Two runs of exchanges, one after the other. */
  lemma TripsJoin(files: seq<seq<Byte>>, a: seq<Trip>, b: seq<Trip>)
    ensures TripsFor(files, a) && TripsFor(files, b) ==> TripsFor(files, a + b)
    ensures AllSmooth(a + b) <==> AllSmooth(a) && AllSmooth(b)
  {
    if AllSmooth(a + b) {
      assert forall t | t in a :: t in a + b;
      assert forall t | t in b :: t in a + b;
    }
  }

  /** A fair download of p delivers all of it exactly if it lies in the file. */
  lemma FairSucceeds(file: seq<Byte>, p: Place, o: Outcome)
    requires |file| < UINT64_MAX && 0 < p.size < UINT64 && p.offset < UINT64
    requires var t := Trip(file, Asked(p.size, p.offset), o); Honest(t) && Fair(t)
    ensures Within(file, p) ==> Succeeds(o, p.size, p.offset) && Available(file, p.size, p.offset) == p.size
    ensures !Within(file, p) && Succeeds(o, p.size, p.offset) ==> Available(file, p.size, p.offset) < p.size
  {
  }

  /** A download that must deliver exactly the bytes at p. */
  method Fetch(file: seq<Byte>, p: Place)
    returns (data: Option<seq<Byte>>, totalSize: Uint64, ghost trips: seq<Trip>)
    requires |file| < UINT64_MAX && 0 < p.size && p.offset < UINT64 && p.size < UINT64
    ensures TripsFor([file], trips) && |trips| == 1 && trips[0].range == Asked(p.size, p.offset)
    ensures data.Some? ==> Within(file, p) && data.value == Slice(file, p)
    ensures data.Some? && p.offset == 0 ==> totalSize == Reported(trips[0])
    ensures Fair(trips[0]) || AllSmooth(trips) ==> (data.Some? <==> Within(file, p))
  {
    var status, bytes, size, total, o := HttpDownloadFile(file, Some(p.size), p.offset);
    ghost var trip := Trip(file, Asked(p.size, p.offset), o);
    trips := [trip];
    OneTrip([file], trip);
    if Fair(trip) { FairSucceeds(file, p, o); }
    if !status || size != p.size { return None, total, trips; }
    return Some(bytes[..size]), total, trips;
  }

  /** The rows written so far, and the running offset. */
  ghost predicate Rows(files: seq<seq<Byte>>, firstSize: Uint64, pieces: seq<Piece>, offset: Uint64) {
    && |pieces| <= |files| && RunningOffsets(pieces) && offset == Sum(Sizes(pieces)) % UINT64
    && forall i | 0 <= i < |pieces| :: pieces[i].fileSize == if i == 0 then firstSize else |files[i]|
  }

  lemma AddModulo(a: nat, b: nat)
    ensures (a % UINT64 + b) % UINT64 == (a + b) % UINT64
  {
  }

  lemma AddRow(files: seq<seq<Byte>>, firstSize: Uint64, pieces: seq<Piece>, offset: Uint64, size: Uint64)
    requires Rows(files, firstSize, pieces, offset) && |pieces| < |files|
    requires size == if pieces == [] then firstSize else |files[|pieces|]|
    ensures Rows(files, firstSize, pieces + [Piece(offset, size)], (offset + size) % UINT64)
  {
    var sizes, more := Sizes(pieces), Sizes(pieces + [Piece(offset, size)]);
    assert more == sizes + [size];
    forall i | 0 <= i <= |pieces| ensures more[..i] == sizes[..i] {}
    AddModulo(Sum(sizes), size);
  }

  method WritePieces(files: seq<seq<Byte>>, firstSize: Uint64)
    returns (ok: bool, pieces: seq<Piece>, offset: Uint64, ghost trips: seq<Trip>)
    requires files != [] && forall f | f in files :: |f| < UINT64_MAX
    ensures ok ==> |pieces| == |files| && RunningOffsets(pieces) && offset == Sum(Sizes(pieces)) % UINT64
    ensures ok ==> pieces[0].fileSize == firstSize && forall i | 0 < i < |files| :: pieces[i].fileSize == |files[i]|
    ensures TripsFor(files, trips) && (AllSmooth(trips) ==> ok)
  {
    pieces, offset, trips := [], 0, [];
    var totalSize: Uint64 := firstSize;
    while |pieces| < |files|
      invariant pieces == [] ==> totalSize == firstSize
      invariant Rows(files, firstSize, pieces, offset) && TripsFor(files, trips)
      decreases |files| - |pieces|
    {
      if |pieces| > 0 {
        var known, size, o := HttpGetFileSize(files[|pieces|]);
        ghost var trip := Trip(files[|pieces|], Whole, o);
        OneTrip(files, trip);
        TripsJoin(files, trips, [trip]);
        trips := trips + [trip];
        if !known { return false, pieces, offset, trips; }
        totalSize := size;
      }
      AddRow(files, firstSize, pieces, offset, totalSize);
      pieces := pieces + [Piece(offset, totalSize)];
      offset := (offset + totalSize) % UINT64;
    }
    ok := true;
  }

  lemma SliceReads(file: seq<Byte>, header: seq<Byte>, at: nat)
    requires header <= file && at + 8 <= |header|
    ensures BE32(header, at) == BE32(file, at) && BE64(header, at) == BE64(file, at)
  {
    assert forall i | 0 <= i < |header| :: header[i] == file[i];
  }

  method FetchHeader(file: seq<Byte>) returns (header: Option<seq<Byte>>, totalSize: Uint64, ghost trips: seq<Trip>)
    requires |file| < UINT64_MAX
    ensures header.Some? ==> HEADER_SIZE <= |file| && header.value == file[..HEADER_SIZE] && file[..4] == PKG_MAGIC
    ensures TripsFor([file], trips) && |trips| == 1 && trips[0].range == Whole
    ensures header.Some? ==> totalSize == Reported(trips[0])
    ensures Fair(trips[0]) ==> (header.Some? <==> HEADER_SIZE <= |file| && file[..4] == PKG_MAGIC)
  {
    header, totalSize, trips := Fetch(file, Place(0, HEADER_SIZE));
    if header.Some? {
      assert header.value[..4] == file[..4];
      if header.value[..4] != PKG_MAGIC { header := None; }
    }
  }

  method FetchTable(file: seq<Byte>, header: seq<Byte>)
    returns (table: Option<seq<Byte>>, count: nat, ghost trips: seq<Trip>)
    requires |file| < UINT64_MAX && HEADER_SIZE <= |file| && header == file[..HEADER_SIZE] && file[..4] == PKG_MAGIC
    ensures table.Some? ==> HasTable(file) && table.value == Slice(file, TablePlace(file)) && count == BE32(file, 0x10)
    ensures TripsFor([file], trips) && (AllSmooth(trips) ==> (table.Some? <==> HasTable(file)))
  {
    SliceReads(file, header, 0x10);
    SliceReads(file, header, 0x18);
    count := BE32(header, 0x10);
    if ENTRY_SIZE * count == 0 { return None, count, []; }
    var total: Uint64;
    table, total, trips := Fetch(file, Place(BE32(header, 0x18), ENTRY_SIZE * count));
  }

  method FetchEntries(file: seq<Byte>, table: seq<Byte>, count: nat)
    returns (paramSfo: Option<seq<Byte>>, iconPng: Option<seq<Byte>>, ghost trips: seq<Trip>)
    requires |file| < UINT64_MAX && HasTable(file) && table == Slice(file, TablePlace(file))
    requires count == BE32(file, 0x10)
    ensures paramSfo.Some? ==> EntriesFrom(file, paramSfo.value, iconPng)
    ensures TripsFor([file], trips) && (AllSmooth(trips) ==> (paramSfo.Some? <==> EntriesGood(file)))
  {
    var sfo, icon := FindEntries(table, count);
    PlacesFit(table, count, PARAM_SFO, sfo);
    PlacesFit(table, count, ICON0_PNG, icon);
    OnlyEntries(file, sfo, icon);
    if sfo.offset == 0 || sfo.size == 0 { return None, None, []; }
    paramSfo, iconPng, trips := FetchPlaces(file, sfo, icon);
  }

  method FetchPlaces(file: seq<Byte>, sfo: Place, icon: Place)
    returns (paramSfo: Option<seq<Byte>>, iconPng: Option<seq<Byte>>, ghost trips: seq<Trip>)
    requires |file| < UINT64_MAX && 0 < sfo.offset < UINT64 && 0 < sfo.size < UINT64
    requires icon.offset < UINT64 && icon.size < UINT64
    ensures paramSfo.Some? ==>
              && PlacesGood(file, sfo, icon) && paramSfo.value == Slice(file, sfo)
              && iconPng == if icon.offset > 0 && icon.size > 0 then Some(Slice(file, icon)) else None
    ensures TripsFor([file], trips) && (AllSmooth(trips) ==> (paramSfo.Some? <==> PlacesGood(file, sfo, icon)))
  {
    iconPng := None;
    var total: Uint64;
    paramSfo, total, trips := Fetch(file, sfo);
    if paramSfo == None { return; }
    if sfo.size < 4 || paramSfo.value[..4] != Sfo.MAGIC { return None, None, trips; }
    if icon.offset > 0 && icon.size > 0 {
      ghost var iconTrips;
      iconPng, total, iconTrips := Fetch(file, icon);
      TripsJoin([file], trips, iconTrips);
      trips := trips + iconTrips;
      if iconPng == None { paramSfo := None; }
    }
  }

  lemma PlacesFit(table: seq<Byte>, n: nat, id: nat, p: Place)
    requires ENTRY_SIZE * n <= |table| && LastEntry(table, n, id, p)
    ensures p.offset < UINT64 && p.size < UINT64
  {
  }

  lemma OneLastEntry(table: seq<Byte>, n: nat, id: nat, p: Place, q: Place)
    requires ENTRY_SIZE * n <= |table| && LastEntry(table, n, id, p) && LastEntry(table, n, id, q)
    ensures p == q
  {
  }

  lemma OnlyEntries(file: seq<Byte>, sfo: Place, icon: Place)
    requires HasTable(file) && EntryIs(file, PARAM_SFO, sfo) && EntryIs(file, ICON0_PNG, icon)
    ensures EntriesGood(file) <==> PlacesGood(file, sfo, icon)
  {
    if EntriesGood(file) {
      var s: Place, i: Place :| EntryIs(file, PARAM_SFO, s) && EntryIs(file, ICON0_PNG, i) && PlacesGood(file, s, i);
      OneLastEntry(Slice(file, TablePlace(file)), BE32(file, 0x10), PARAM_SFO, sfo, s);
      OneLastEntry(Slice(file, TablePlace(file)), BE32(file, 0x10), ICON0_PNG, icon, i);
    }
  }

  lemma OneFile(files: seq<seq<Byte>>, size: Uint64)
    requires |files| == 1
    ensures (size + |Joined(files[1..])|) % UINT64 == size
  {
    assert files[1..] == [];
  }

  /**
    pkg_setup_prerequisites. What it takes is the package's own. As long as every exchange is fair and all but the first
    report a length, it succeeds exactly on the files that can be installed with what the first reports as a length,
    which is what the first row gets; so if the first reports one too, on those that can be installed.
   */
  method SetupPrerequisites(files: seq<seq<Byte>>) returns (r: Option<Setup>, ghost trips: seq<Trip>)
    requires forall f | f in files :: |f| < UINT64_MAX
    ensures r.Some? ==> FromPackage(files, r.value)
    ensures TripsFor(files, trips) && (files != [] ==> BeginsWith(files[0], trips))
    ensures r.Some? ==> r.value.pieces[0].fileSize == Reported(trips[0])
    ensures files != [] && Fair(trips[0]) && AllSmooth(trips[1..]) ==>
              (r.Some? <==> InstallableAs(files, Reported(trips[0])))
    ensures AllSmooth(trips) ==> (r.Some? <==> Installable(files))
  {
    if files == [] { return None, []; }
    r, trips := SetupFiles(files);
    WhenSmooth(files, trips);
  }

  /** The first exchange is for the whole of the file. */
  predicate BeginsWith(file: seq<Byte>, trips: seq<Trip>) {
    trips != [] && trips[0].file == file && trips[0].range == Whole
  }

  method SetupFiles(files: seq<seq<Byte>>) returns (r: Option<Setup>, ghost trips: seq<Trip>)
    requires files != [] && forall f | f in files :: |f| < UINT64_MAX
    ensures r.Some? ==> FromPackage(files, r.value)
    ensures TripsFor(files, trips) && BeginsWith(files[0], trips)
    ensures r.Some? ==> r.value.pieces[0].fileSize == Reported(trips[0])
    ensures Fair(trips[0]) && AllSmooth(trips[1..]) ==> (r.Some? <==> InstallableAs(files, Reported(trips[0])))
  {
    var header, totalSize;
    ghost var first, rest;
    header, totalSize, first := FetchHeader(files[0]);
    trips := first;
    FirstAndRest(files, first, []);
    assert first + [] == first;
    if header == None { return None, trips; }
    SliceReads(files[0], header.value, 0x74);
    SliceReads(files[0], header.value, 0x430);
    var packageSize := BE64(header.value, 0x430);
    if |files| == 1 && packageSize > 0 && totalSize != packageSize {
      OneFile(files, totalSize);
      return None, trips;
    }
    r, rest := SetupFrom(files, header.value, totalSize, packageSize, BE32(header.value, 0x74));
    trips := first + rest;
    FirstAndRest(files, first, rest);
  }

  lemma WhenSmooth(files: seq<seq<Byte>>, trips: seq<Trip>)
    requires files != [] && BeginsWith(files[0], trips)
    ensures AllSmooth(trips) ==> Fair(trips[0]) && AllSmooth(trips[1..]) && Reported(trips[0]) == |files[0]|
    ensures InstallableAs(files, |files[0]|) <==> Installable(files)
  {
    SmoothRest(trips);
    WithLength(files);
  }

  lemma SmoothRest(trips: seq<Trip>)
    requires trips != []
    ensures AllSmooth(trips) ==> Smooth(trips[0]) && AllSmooth(trips[1..])
  {
    assert trips[0] in trips && forall t | t in trips[1..] :: t in trips;
  }

  lemma WithLength(files: seq<seq<Byte>>)
    requires files != []
    ensures InstallableAs(files, |files[0]|) <==> Installable(files)
  {
    JoinedFirst(files);
  }

  lemma FirstAndRest(files: seq<seq<Byte>>, first: seq<Trip>, rest: seq<Trip>)
    requires files != [] && |first| == 1 && TripsFor([files[0]], first) && TripsFor(files, rest)
    ensures TripsFor(files, first + rest) && (first + rest)[0] == first[0] && (first + rest)[1..] == rest
  {
    OneTrip(files, first[0]);
    OneTrip([files[0]], first[0]);
    assert first == [first[0]];
    TripsJoin(files, first, rest);
  }

  /** From the entry table on. */
  method SetupFrom(files: seq<seq<Byte>>, header: seq<Byte>, totalSize: Uint64, packageSize: nat, contentType: nat)
    returns (r: Option<Setup>, ghost trips: seq<Trip>)
    requires files != [] && forall f | f in files :: |f| < UINT64_MAX
    requires HEADER_SIZE <= |files[0]| && header == files[0][..HEADER_SIZE] && files[0][..4] == PKG_MAGIC
    requires packageSize == BE64(files[0], 0x430) && contentType == BE32(files[0], 0x74)
    requires totalSize == |files[0]| || totalSize == UINT64_MAX
    requires |files| == 1 && packageSize > 0 ==> totalSize == packageSize
    ensures r.Some? ==> FromPackage(files, r.value) && r.value.pieces[0].fileSize == totalSize
    ensures TripsFor(files, trips) && (AllSmooth(trips) ==> (r.Some? <==> InstallableAs(files, totalSize)))
  {
    var table, count;
    ghost var more;
    table, count, trips := FetchTable(files[0], header);
    if table == None { return None, trips; }
    var paramSfo, icon;
    paramSfo, icon, more := FetchEntries(files[0], table.value, count);
    TripsJoin(files, trips, more);
    trips := trips + more;
    if paramSfo == None { return None, trips; }
    var pieces;
    pieces, more := SetupPieces(files, totalSize, packageSize);
    TripsJoin(files, trips, more);
    trips := trips + more;
    if pieces == None { return None, trips; }
    return Some(Setup(contentType, packageSize, paramSfo.value, icon, pieces.value)), trips;
  }

  /** The piece table and the check of its end against the package size. */
  method SetupPieces(files: seq<seq<Byte>>, totalSize: Uint64, packageSize: nat)
    returns (r: Option<seq<Piece>>, ghost trips: seq<Trip>)
    requires files != [] && forall f | f in files :: |f| < UINT64_MAX
    requires totalSize == |files[0]| || totalSize == UINT64_MAX
    requires |files| == 1 && packageSize > 0 ==> totalSize == packageSize
    ensures r.Some? ==> PiecesFrom(files, r.value, packageSize) && r.value[0].fileSize == totalSize
    ensures TripsFor(files, trips)
    ensures AllSmooth(trips) ==> (r.Some? <==> packageSize == 0 || EndsAt(files, totalSize, packageSize))
  {
    var ok, pieces, offset;
    ok, pieces, offset, trips := WritePieces(files, totalSize);
    if !ok { return None, trips; }
    EndOfPieces(files, pieces, totalSize, offset, packageSize);
    if packageSize > 0 && offset != packageSize { return None, trips; }
    return Some(pieces), trips;
  }

  lemma EndOfPieces(files: seq<seq<Byte>>, pieces: seq<Piece>, firstSize: Uint64, offset: Uint64, packageSize: nat)
    requires files != [] && |pieces| == |files| && offset == Sum(Sizes(pieces)) % UINT64
    requires pieces[0].fileSize == firstSize && forall i | 0 < i < |files| :: pieces[i].fileSize == |files[i]|
    ensures offset == packageSize <==> EndsAt(files, firstSize, packageSize)
  {
    SizesTotal(files, Sizes(pieces), firstSize, |files|);
    assert Sizes(pieces)[..|files|] == Sizes(pieces) && files[1..|files|] == files[1..];
  }

  lemma {:induction false} SizesTotal(files: seq<seq<Byte>>, sizes: seq<Uint64>, firstSize: Uint64, k: nat)
    requires |sizes| == |files| && 0 < k <= |files| && sizes[0] == firstSize
    requires forall i | 0 < i < |files| :: sizes[i] == |files[i]|
    ensures Sum(sizes[..k]) == firstSize + |Joined(files[1..k])|
    decreases k
  {
    if k == 1 {
      assert sizes[..1][..0] == [];
    } else {
      SizesTotal(files, sizes, firstSize, k - 1);
      assert sizes[..k][..k - 1] == sizes[..k - 1] && files[1..k][..k - 2] == files[1..k - 1];
    }
  }

  // ---- what the piece table means ----

  lemma {:induction false} JoinedLength(files: seq<seq<Byte>>, sizes: seq<Uint64>, k: nat)
    requires |sizes| == |files| && k <= |files| && forall i | 0 <= i < |files| :: sizes[i] == |files[i]|
    ensures |Joined(files[..k])| == Sum(sizes[..k])
    decreases k
  {
    if k > 0 {
      JoinedLength(files, sizes, k - 1);
      assert files[..k][..k - 1] == files[..k - 1] && sizes[..k][..k - 1] == sizes[..k - 1];
    }
  }

  /** The offsets tile the package exactly when the sizes do not wrap. */
  lemma PackageTiles(files: seq<seq<Byte>>, s: Setup)
    requires FromPackage(files, s) && s.packageSize > 0
    ensures Tile(s.pieces, s.packageSize) <==> Sum(Sizes(s.pieces)) < UINT64
  {
    TilesExactly(s.pieces, s.packageSize);
  }

  /** The rows give the sizes of the files. */
  ghost predicate SizesOf(files: seq<seq<Byte>>, pieces: seq<Piece>) {
    |pieces| == |files| && forall i | 0 <= i < |files| :: Sizes(pieces)[i] == |files[i]|
  }

  lemma JoinedTotal(files: seq<seq<Byte>>, pieces: seq<Piece>)
    requires SizesOf(files, pieces)
    ensures |Joined(files)| == Sum(Sizes(pieces))
  {
    assert files[..|files|] == files && Sizes(pieces)[..|files|] == Sizes(pieces);
    JoinedLength(files, Sizes(pieces), |files|);
  }

  lemma KnownSizes(files: seq<seq<Byte>>, pieces: seq<Piece>, packageSize: nat)
    requires files != [] && PiecesFrom(files, pieces, packageSize) && pieces[0].fileSize == |files[0]|
    ensures SizesOf(files, pieces)
  {
  }

  lemma JoinedSize(files: seq<seq<Byte>>, pieces: seq<Piece>, packageSize: nat)
    requires SizesOf(files, pieces) && Sum(Sizes(pieces)) % UINT64 == packageSize && |Joined(files)| < UINT64
    ensures |Joined(files)| == packageSize == Sum(Sizes(pieces))
  {
    JoinedTotal(files, pieces);
  }

  /** The row that covers a byte says where it is in which file. */
  lemma ByteInPiece(files: seq<seq<Byte>>, pieces: seq<Piece>, k: nat, j: nat)
    requires SizesOf(files, pieces) && k < |files| && j < |files[k]|
    requires pieces[k].fileOffset == Sum(Sizes(pieces)[..k])
    ensures pieces[k].fileOffset + j < |Joined(files)| && Joined(files)[pieces[k].fileOffset + j] == files[k][j]
  {
    JoinedLength(files, Sizes(pieces), k);
    JoinedAt(files, k, j);
  }

  lemma ByteInTiles(files: seq<seq<Byte>>, pieces: seq<Piece>, packageSize: nat, x: nat) returns (k: nat)
    requires SizesOf(files, pieces) && RunningOffsets(pieces) && Sum(Sizes(pieces)) == packageSize < UINT64
    requires x < packageSize
    ensures k < |files| && Covers(pieces[k], x) && forall i | 0 <= i < |files| && i != k :: !Covers(pieces[i], x)
    ensures x - pieces[k].fileOffset < |files[k]| && x < |Joined(files)|
    ensures Joined(files)[x] == files[k][x - pieces[k].fileOffset]
  {
    TilesExactly(pieces, packageSize);
    k := TiledOnce(pieces, packageSize, x);
    ByteCovered(files, pieces, k, x);
  }

  lemma ByteCovered(files: seq<seq<Byte>>, pieces: seq<Piece>, k: nat, x: nat)
    requires SizesOf(files, pieces) && RunningOffsets(pieces) && Sum(Sizes(pieces)) < UINT64
    requires k < |files| && Covers(pieces[k], x)
    ensures x - pieces[k].fileOffset < |files[k]| && x < |Joined(files)|
    ensures Joined(files)[x] == files[k][x - pieces[k].fileOffset]
  {
    UnwrappedOffset(pieces, k);
    assert Sizes(pieces)[k] == |files[k]|;
    ByteInPiece(files, pieces, k, x - pieces[k].fileOffset);
  }

  /** With the first piece's size known, every byte of the package is where the one row that covers it says it is. */
  lemma PieceHoldsByte(files: seq<seq<Byte>>, pieces: seq<Piece>, packageSize: nat, x: nat) returns (k: nat)
    requires files != [] && PiecesFrom(files, pieces, packageSize) && packageSize > 0
    requires pieces[0].fileSize == |files[0]| && x < |Joined(files)| < UINT64
    ensures |Joined(files)| == packageSize && k < |files|
    ensures Covers(pieces[k], x) && forall i | 0 <= i < |files| && i != k :: !Covers(pieces[i], x)
    ensures x - pieces[k].fileOffset < |files[k]| && Joined(files)[x] == files[k][x - pieces[k].fileOffset]
  {
    KnownSizes(files, pieces, packageSize);
    JoinedSize(files, pieces, packageSize);
    k := ByteInTiles(files, pieces, packageSize, x);
  }

  lemma UnknownPieces(f0: seq<Byte>, f1: seq<Byte>)
    requires 1 < |f1| < UINT64
    ensures var pieces := [Piece(0, UINT64_MAX), Piece(UINT64_MAX, |f1|)];
            PiecesFrom([f0, f1], pieces, |f1| - 1) && !Tile(pieces, |f1| - 1)
  {
    var pieces := [Piece(0, UINT64_MAX), Piece(UINT64_MAX, |f1|)];
    var sizes := Sizes(pieces);
    assert sizes[..0] == [] && sizes[..1] == [UINT64_MAX] && sizes[..2] == sizes;
    SumStep(sizes, 0);
    SumStep(sizes, 1);
    TilesExactly(pieces, |f1| - 1);
  }

  /**
    When the server leaves the first piece's length out, the set-up can write a table that ends at the package size
    and does not tile: here whenever the first file's header gives one byte less than the second file has.
   */
  lemma UnknownSizeDoesNotTile(f0: seq<Byte>, f1: seq<Byte>, paramSfo: seq<Byte>, icon: Option<seq<Byte>>)
    requires 1 < |f1| < UINT64
    requires HasTable(f0) && EntriesFrom(f0, paramSfo, icon) && BE64(f0, 0x430) == |f1| - 1
    ensures var s := Setup(BE32(f0, 0x74), |f1| - 1, paramSfo, icon, [Piece(0, UINT64_MAX), Piece(UINT64_MAX, |f1|)]);
            FromPackage([f0, f1], s) && !Tile(s.pieces, s.packageSize)
  {
    UnknownPieces(f0, f1);
  }

  /** With no length for the first file, the table tiles the package exactly if the other files are empty. */
  lemma UncountedTilesExactly(files: seq<seq<Byte>>, s: Setup)
    requires FromPackage(files, s) && s.packageSize > 0 && s.pieces[0].fileSize == UINT64_MAX
    ensures Tile(s.pieces, s.packageSize) <==> Joined(files[1..]) == []
  {
    SizesTotal(files, Sizes(s.pieces), UINT64_MAX, |files|);
    assert Sizes(s.pieces)[..|files|] == Sizes(s.pieces) && files[1..|files|] == files[1..];
    PackageTiles(files, s);
  }

  /** An exchange a server may make for a file, without a length, and one with it for any range. */
  lemma UncountedExchange(file: seq<Byte>) returns (t: Trip)
    ensures t.file == file && t.range == Whole && Honest(t) && Fair(t) && !Counted(t)
  {
    t := Trip(file, Whole, Outcome(Some(Answer(200, None, file)), false, false));
  }

  lemma SmoothExchange(file: seq<Byte>, range: Range) returns (t: Trip)
    requires |file| < UINT64
    ensures t.file == file && t.range == range && Honest(t) && Smooth(t)
  {
    var part := Satisfiable(file, range);
    var body := if part then file[range.first..Min(range.last + 1, |file|)] else file;
    t := Trip(file, range, Outcome(Some(Answer(if part then 206 else 200, Some(|body|), body)), false, false));
  }

  /**
    The set-up of such a package, when the first exchange gives no length, nothing fails and the others are smooth: it
    succeeds, and the table does not tile.
   */
  method UnknownSizeRun(f0: seq<Byte>, f1: seq<Byte>) returns (r: Option<Setup>, ghost trips: seq<Trip>)
    requires |f0| < UINT64_MAX && 1 < |f1| < UINT64_MAX
    requires HasTable(f0) && EntriesGood(f0) && BE64(f0, 0x430) == |f1| - 1
    ensures TripsFor([f0, f1], trips) && BeginsWith(f0, trips)
    ensures Fair(trips[0]) && !Counted(trips[0]) && AllSmooth(trips[1..]) ==>
              && r.Some? && FromPackage([f0, f1], r.value)
              && !Tile(r.value.pieces, r.value.packageSize)
  {
    r, trips := SetupPrerequisites([f0, f1]);
    TwoFiles(f0, f1);
    if r.Some? && !Counted(trips[0]) {
      UncountedTilesExactly([f0, f1], r.value);
    }
  }

  lemma TwoFiles(f0: seq<Byte>, f1: seq<Byte>)
    requires 1 < |f1| < UINT64_MAX && HasTable(f0) && EntriesGood(f0) && BE64(f0, 0x430) == |f1| - 1
    ensures Joined([f0, f1][1..]) != [] && InstallableAs([f0, f1], UINT64_MAX)
  {
    assert [f0, f1][1..] == [f1] && [f1][..0] == [] && Joined([f1]) == [] + f1;
  }

  /** A package with one entry, a param.sfo of four bytes, whose header gives a size of 7. */
  function ExampleByte(k: nat): Byte {
    match k
    case 0 => 0x7F
    case 1 => 0x43
    case 2 => 0x4E
    case 3 => 0x54
    case 0x13 => 1
    case 0x1A => 0x20
    case 0x437 => 7
    case 0x2002 => 0x10
    case 0x2012 => 0x20
    case 0x2013 => 0x20
    case 0x2017 => 4
    case 0x2021 => 0x50
    case 0x2022 => 0x53
    case 0x2023 => 0x46
    case _ => 0
  }

  lemma ExamplePackage() returns (f0: seq<Byte>)
    ensures HasTable(f0) && TablePlace(f0) == Place(0x2000, 0x20) && BE64(f0, 0x430) == 7
    ensures |f0| == 0x2024 && forall k | 0 <= k < 0x2024 :: f0[k] == ExampleByte(k)
  {
    f0 := seq(0x2024, k requires 0 <= k < 0x2024 => ExampleByte(k));
    assert f0[..4] == PKG_MAGIC;
  }

  lemma ExampleTable(f0: seq<Byte>)
    requires HasTable(f0) && TablePlace(f0) == Place(0x2000, 0x20)
    requires |f0| == 0x2024 && forall k | 0 <= k < 0x2024 :: f0[k] == ExampleByte(k)
    ensures EntryIs(f0, PARAM_SFO, Place(0x2020, 4)) && EntryIs(f0, ICON0_PNG, Place(0, 0))
  {
    var table := Slice(f0, TablePlace(f0));
    assert forall i | 0 <= i < 0x20 :: table[i] == ExampleByte(0x2000 + i);
    assert EntryId(table, 0) == PARAM_SFO && EntryPlace(table, 0) == Place(0x2020, 4);
  }

  lemma ExampleEntries(f0: seq<Byte>)
    requires HasTable(f0) && EntryIs(f0, PARAM_SFO, Place(0x2020, 4)) && EntryIs(f0, ICON0_PNG, Place(0, 0))
    requires |f0| == 0x2024 && forall k | 0 <= k < 0x2024 :: f0[k] == ExampleByte(k)
    ensures EntriesFrom(f0, Sfo.MAGIC, None) && EntriesGood(f0)
  {
    var sfo := Place(0x2020, 4);
    assert Slice(f0, sfo) == Sfo.MAGIC;
    assert Sfo.MAGIC[..4] == Sfo.MAGIC;
    assert PlacesGood(f0, sfo, Place(0, 0));
  }

  /** With any second file of 8 bytes, it is set up with a table that does not tile. */
  lemma UnknownSizeExample(f1: seq<Byte>) returns (f0: seq<Byte>, s: Setup)
    requires |f1| == 8
    ensures |f0| == 0x2024 && HasTable(f0) && EntriesGood(f0) && BE64(f0, 0x430) == |f1| - 1
    ensures FromPackage([f0, f1], s) && !Tile(s.pieces, s.packageSize)
  {
    f0 := ExamplePackage();
    ExampleTable(f0);
    ExampleEntries(f0);
    UnknownSizeDoesNotTile(f0, f1, Sfo.MAGIC, None);
    s := Setup(BE32(f0, 0x74), 7, Sfo.MAGIC, None, [Piece(0, UINT64_MAX), Piece(UINT64_MAX, 8)]);
  }
}
