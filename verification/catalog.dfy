/**
  * list_nds_files: every ROM the directory walk reports becomes one catalog record, and the
  * summary counts the records and shows the sum of their sizes. The walk itself is an input:
  * a sequence of (directory, file name, byte length) entries in the order os.walk yields them.
  */
module Catalog {
  import opened Results
  import opened Text
  import opened Names
  import opened Paths
  import opened Sizes
  import opened Quoting

  /** The suffix that marks a file as a ROM image. */
  const RomSuffix: string := ".nds"

  /** One file reported by the walk: its directory, its name, and its length in bytes. */
  datatype WalkEntry = WalkEntry(root: string, name: string, size: nat)

  /** One entry of the catalog's "files" array. */
  datatype FileRecord = FileRecord(
    fileName: string,
    gameName: string,
    region: string,
    fileSize: string,
    url: string)

  /** The catalog: "total_files", "total_size" and "files". */
  datatype Summary = Summary(totalFiles: nat, totalSize: string, files: seq<FileRecord>)

  predicate IsRom(e: WalkEntry) {
    EndsWith(e.name, RomSuffix)
  }

  /** os.path.join(root, file). */
  function FilePath(e: WalkEntry): string {
    JoinPath(e.root, e.name)
  }

  /** What the model asks of the walk: every ROM it reports lies in the ROM root. */
  predicate Admissible(e: WalkEntry) {
    IsRom(e) ==> UnderBase(FilePath(e))
  }

  /** The download URL of a file: the base URL, then its relative path quoted with '/' kept. */
  function FileUrl(baseUrl: string, rel: string): (url: string)
    ensures StartsWith(url, baseUrl)
    ensures IsPercentEncoded(url[|baseUrl|..])
    ensures PercentDecode(url[|baseUrl|..]) == Some(Utf8(rel))
  {
    var encoded := Quote(Utf8(rel));
    QuoteRoundTrip(Utf8(rel));
    var url := baseUrl + encoded;
    assert url[|baseUrl|..] == encoded;
    url
  }

  /** The separators of the relative path stay in the URL: each component is quoted on its own. */
  lemma FileUrlKeepsSeparators(baseUrl: string, dir: string, name: string)
    ensures FileUrl(baseUrl, dir + "/" + name) == FileUrl(baseUrl, dir) + "/" + Quote(Utf8(name))
  {
    var qd, qn := Quote(Utf8(dir)), Quote(Utf8(name));
    assert FileUrl(baseUrl, dir + "/" + name) == baseUrl + (qd + "/" + qn) by {
      FileUrlIsQuote(baseUrl, dir + "/" + name);
      QuoteKeepsSeparator(dir, name);
    }
    assert FileUrl(baseUrl, dir) == baseUrl + qd by {
      FileUrlIsQuote(baseUrl, dir);
    }
    ConcatAssociative(baseUrl, qd, "/" + qn);
    ConcatAssociative(baseUrl + qd, "/", qn);
    ConcatAssociative(qd, "/", qn);
  }

  /** The URL is the base URL followed by the quoted UTF-8 bytes of the relative path. */
  lemma FileUrlIsQuote(baseUrl: string, rel: string)
    ensures FileUrl(baseUrl, rel) == baseUrl + Quote(Utf8(rel))
  {
  }

  /** Decoding the part of the URL after the base gives back the relative path itself. */
  lemma FileUrlDecodes(baseUrl: string, rel: string)
    ensures var encoded := FileUrl(baseUrl, rel)[|baseUrl|..];
      && PercentDecode(encoded).Some?
      && Utf8Decode(PercentDecode(encoded).value) == Some(rel)
  {
    Utf8RoundTrip(rel);
  }

  /** The record of one ROM, with the fields list_nds_files fills in. */
  function MakeRecord(e: WalkEntry, baseUrl: string): FileRecord
    requires UnderBase(FilePath(e))
  {
    var path := FilePath(e);
    var (sizeBytes, size) := GetFileSize(e.size);
    FileRecord(e.name, ParseFileName(e.name), Region(path), size, FileUrl(baseUrl, RelPath(path)))
  }

  /** What each field of a record says about the ROM it describes. */
  lemma MakeRecordFields(e: WalkEntry, baseUrl: string)
    requires UnderBase(FilePath(e))
    ensures var r := MakeRecord(e, baseUrl);
      && r.fileName == e.name
      && r.gameName == ParseFileName(e.name)
      && '(' !in r.gameName && IsTrimmed(r.gameName)
      && Sep !in r.region
      && r.fileSize == FileSizeDisplay(e.size)
      && EndsWith(r.fileSize, " MB")
      && StartsWith(r.url, baseUrl)
      && PercentDecode(r.url[|baseUrl|..]) == Some(Utf8(RelPath(FilePath(e))))
      && RegionFromPath(FilePath(e)) == Success(r.region)
  {
    RegionUnderBaseDefined(FilePath(e));
  }

  /**
    * A ROM stored as <region>/<folder>/<file> below the ROM root, as the CDN lays them out, gets a
    * record filed under that region whose URL is the base URL followed by the quoted relative path.
    */
  lemma RecordOfRomLayout(region: string, folder: string, file: string, size: nat, baseUrl: string)
    requires IsPlainComponent(region) && IsPlainComponent(folder) && IsPlainComponent(file)
    requires Sep !in region && Sep !in folder && Sep !in file
    requires EndsWith(file, RomSuffix)
    ensures var e := WalkEntry(BaseDir + region + [Sep] + folder, file, size);
      && IsRom(e) && UnderBase(FilePath(e))
      && MakeRecord(e, baseUrl).fileName == file
      && MakeRecord(e, baseUrl).gameName == ParseFileName(file)
      && MakeRecord(e, baseUrl).fileSize == FileSizeDisplay(size)
      && MakeRecord(e, baseUrl).region == region
      && MakeRecord(e, baseUrl).url == baseUrl + Quote(Utf8(region + [Sep] + folder + [Sep] + file))
      && MakeRecord(e, baseUrl).url
        == baseUrl + Quote(Utf8(region)) + "/" + Quote(Utf8(folder)) + "/" + Quote(Utf8(file))
  {
    var root := BaseDir + region + [Sep] + folder;
    var e := WalkEntry(root, file, size);
    assert root[|root| - 1] == folder[|folder| - 1];
    assert folder[|folder| - 1] in folder;
    assert file[0] in file;
    JoinPathPlain(root, file);
    RegionOfRomLayout(region, folder, file);
    MakeRecordParts(e, baseUrl);
    SegmentedUrl(baseUrl, region, folder, file);
  }

  /** The quoted relative path of a three-component layout, written component by component. */
  lemma SegmentedUrl(baseUrl: string, region: string, folder: string, file: string)
    ensures baseUrl + Quote(Utf8(region + [Sep] + folder + [Sep] + file))
      == baseUrl + Quote(Utf8(region)) + "/" + Quote(Utf8(folder)) + "/" + Quote(Utf8(file))
  {
    var qr, qf, qn := Quote(Utf8(region)), Quote(Utf8(folder)), Quote(Utf8(file));
    assert Quote(Utf8(region + [Sep] + folder + [Sep] + file)) == qr + "/" + qf + "/" + qn by {
      assert [Sep] == "/";
      QuoteThreeComponents(region, folder, file);
    }
    var x1 := qr + "/";
    var x2 := x1 + qf;
    var x3 := x2 + "/";
    ConcatAssociative(baseUrl, x3, qn);
    ConcatAssociative(baseUrl, x2, "/");
    ConcatAssociative(baseUrl, x1, qf);
    ConcatAssociative(baseUrl, qr, "/");
  }

  /** The region and URL of a record come from the joined path of its entry. */
  lemma MakeRecordParts(e: WalkEntry, baseUrl: string)
    requires UnderBase(FilePath(e))
    ensures MakeRecord(e, baseUrl).fileName == e.name
    ensures MakeRecord(e, baseUrl).gameName == ParseFileName(e.name)
    ensures MakeRecord(e, baseUrl).fileSize == FileSizeDisplay(e.size)
    ensures MakeRecord(e, baseUrl).region == Region(FilePath(e))
    ensures MakeRecord(e, baseUrl).url == baseUrl + Quote(Utf8(RelPath(FilePath(e))))
  {
  }

  /** The size shown in a record reads back in megabytes, within half a hundredth of the entry's byte count. */
  lemma RecordSizeReadsBack(e: WalkEntry, baseUrl: string)
    requires UnderBase(FilePath(e))
    ensures var reading := ParseSize(MakeRecord(e, baseUrl).fileSize);
      && reading.Some?
      && reading.value.unit == MegabyteUnit
      && 2 * (100 * e.size) <= 2 * (reading.value.hundredths * Pow1024(MegabyteUnit)) + Pow1024(MegabyteUnit)
      && 2 * (reading.value.hundredths * Pow1024(MegabyteUnit)) <= 2 * (100 * e.size) + Pow1024(MegabyteUnit)
  {
    MakeRecordParts(e, baseUrl);
    FileSizeDisplayRoundTrip(e.size);
  }

  /** The entries that are ROMs, in walk order. */
  function RomEntries(entries: seq<WalkEntry>): (roms: seq<WalkEntry>)
    ensures |roms| <= |entries|
  {
    if entries == [] then []
    else
      var last := entries[|entries| - 1];
      var init := entries[..|entries| - 1];
      RomEntries(init) + (if IsRom(last) then [last] else [])
  }

  /** The ROM entries are exactly the entries whose name ends in ".nds". */
  lemma {:induction false} RomEntriesMembers(entries: seq<WalkEntry>)
    ensures forall e <- RomEntries(entries) :: IsRom(e) && e in entries
    ensures forall e <- entries :: IsRom(e) ==> e in RomEntries(entries)
  {
    if entries != [] {
      var last := entries[|entries| - 1];
      var init := entries[..|entries| - 1];
      RomEntriesMembers(init);
      assert entries == init + [last];
    }
  }

  /** The sum of the byte lengths of some entries. */
  function SumSizes(entries: seq<WalkEntry>): nat
  {
    if entries == [] then 0 else SumSizes(entries[..|entries| - 1]) + entries[|entries| - 1].size
  }

  /** The raw byte total behind "total_size": the sizes of the ROMs only. */
  function RomBytes(entries: seq<WalkEntry>): nat
  {
    SumSizes(RomEntries(entries))
  }

  /** Every ROM the walk reports lies in the ROM root. */
  predicate AllAdmissible(entries: seq<WalkEntry>) {
    forall i | 0 <= i < |entries| :: Admissible(entries[i])
  }

  /** The records of the ROMs of a walk, in walk order: the catalog's "files". */
  function Records(entries: seq<WalkEntry>, baseUrl: string): (records: seq<FileRecord>)
    requires AllAdmissible(entries)
    ensures |records| == |RomEntries(entries)|
  {
    if entries == [] then []
    else
      var last := entries[|entries| - 1];
      var init := entries[..|entries| - 1];
      assert Admissible(last);
      Records(init, baseUrl) + (if IsRom(last) then [MakeRecord(last, baseUrl)] else [])
  }

  /** The i-th record is the record of the i-th ROM of the walk. */
  lemma {:induction false} RecordOfRom(entries: seq<WalkEntry>, baseUrl: string, i: nat)
    requires AllAdmissible(entries)
    requires i < |RomEntries(entries)|
    ensures UnderBase(FilePath(RomEntries(entries)[i]))
    ensures Records(entries, baseUrl)[i] == MakeRecord(RomEntries(entries)[i], baseUrl)
  {
    var last := entries[|entries| - 1];
    var init := entries[..|entries| - 1];
    assert Admissible(last);
    assert AllAdmissible(init);
    var roms := RomEntries(init);
    var records := Records(init, baseUrl);
    assert RomEntries(entries) == roms + (if IsRom(last) then [last] else []);
    assert Records(entries, baseUrl) == records + (if IsRom(last) then [MakeRecord(last, baseUrl)] else []);
    if i < |roms| {
      RecordOfRom(init, baseUrl, i);
      assert RomEntries(entries)[i] == roms[i];
      assert Records(entries, baseUrl)[i] == records[i];
    } else {
      assert IsRom(last);
      assert RomEntries(entries) == roms + [last];
      assert Records(entries, baseUrl) == records + [MakeRecord(last, baseUrl)];
    }
  }

  /** One more entry of the walk adds a record exactly when it is a ROM. */
  lemma RecordsStep(entries: seq<WalkEntry>, baseUrl: string, k: nat)
    requires AllAdmissible(entries)
    requires k < |entries|
    ensures AllAdmissible(entries[..k]) && AllAdmissible(entries[..k + 1])
    ensures Records(entries[..k + 1], baseUrl) ==
      Records(entries[..k], baseUrl) + (if IsRom(entries[k]) then [MakeRecord(entries[k], baseUrl)] else [])
  {
    var prefix := entries[..k + 1];
    assert prefix[|prefix| - 1] == entries[k];
    assert prefix[..|prefix| - 1] == entries[..k];
    assert Admissible(entries[k]);
    assert AllAdmissible(entries[..k]);
  }

  /** What one entry adds to the ROM total: its length when it is a ROM, nothing otherwise. */
  function RomSize(e: WalkEntry): nat {
    if IsRom(e) then e.size else 0
  }

  /** The last entry of a walk adds its ROM size to the total, and one ROM when it is one. */
  lemma RomBytesLast(s: seq<WalkEntry>)
    requires s != []
    ensures RomBytes(s) == RomBytes(s[..|s| - 1]) + RomSize(s[|s| - 1])
    ensures |RomEntries(s)| == |RomEntries(s[..|s| - 1])| + (if IsRom(s[|s| - 1]) then 1 else 0)
  {
    var roms := RomEntries(s[..|s| - 1]);
    var last := s[|s| - 1];
    if IsRom(last) {
      assert (roms + [last])[..|roms|] == roms;
    } else {
      assert roms + [] == roms;
    }
  }

  /** One more entry of the walk adds its size to the ROM total exactly when it is a ROM. */
  lemma RomBytesStep(entries: seq<WalkEntry>, k: nat)
    requires k < |entries|
    ensures RomBytes(entries[..k + 1]) == RomBytes(entries[..k]) + (if IsRom(entries[k]) then entries[k].size else 0)
  {
    var prefix := entries[..k + 1];
    assert prefix[..k] == entries[..k];
    RomBytesLast(prefix);
  }

  /** The ROM total and the ROM count of two walks one after the other add up. */
  lemma {:induction false} RomBytesAppend(a: seq<WalkEntry>, b: seq<WalkEntry>)
    ensures RomBytes(a + b) == RomBytes(a) + RomBytes(b)
    ensures |RomEntries(a + b)| == |RomEntries(a)| + |RomEntries(b)|
    decreases |b|
  {
    if b == [] {
      assert a + b == a;
    } else {
      var init := b[..|b| - 1];
      RomBytesAppend(a, init);
      var ab := a + b;
      assert ab[..|ab| - 1] == a + init;
      assert ab[|ab| - 1] == b[|b| - 1];
      RomBytesLast(ab);
      RomBytesLast(b);
    }
  }

  /**
    * os.walk fixes no order among the files it reports: "total_files" and the byte total behind
    * "total_size" are the same for every order of the same files.
    */
  lemma {:induction false} RomBytesPermutation(a: seq<WalkEntry>, b: seq<WalkEntry>)
    requires multiset(a) == multiset(b)
    ensures RomBytes(a) == RomBytes(b)
    ensures |RomEntries(a)| == |RomEntries(b)|
    decreases |a|
  {
    if a == [] {
      assert |b| == |multiset(b)| == 0;
    } else {
      var last := a[|a| - 1];
      var init := a[..|a| - 1];
      assert a == init + [last];
      assert last in multiset(b);
      var i :| 0 <= i < |b| && b[i] == last;
      var rest := b[..i] + b[i + 1..];
      RemoveMatching(a, b, i);
      RomBytesPermutation(init, rest);
      RomBytesLast(a);
      RomBytesRemove(b, i);
    }
  }

  /** Taking the last element of a and a matching element of b out of two permutations leaves permutations. */
  lemma RemoveMatching<T>(a: seq<T>, b: seq<T>, i: nat)
    requires multiset(a) == multiset(b)
    requires a != [] && i < |b| && b[i] == a[|a| - 1]
    ensures multiset(a[..|a| - 1]) == multiset(b[..i] + b[i + 1..])
  {
    var last, init, rest := a[|a| - 1], a[..|a| - 1], b[..i] + b[i + 1..];
    assert multiset(a) == multiset(init) + multiset{last} by {
      MultisetWithout(a, |a| - 1);
      assert a[..|a| - 1] + a[|a|..] == init;
    }
    assert multiset(b) == multiset(rest) + multiset{last} by {
      MultisetWithout(b, i);
    }
    MultisetCancel(multiset(init), multiset(rest), last);
  }

  /** One and the same element added to two multisets leaves them equal only if they were equal. */
  lemma MultisetCancel<T>(x: multiset<T>, y: multiset<T>, e: T)
    requires x + multiset{e} == y + multiset{e}
    ensures x == y
  {
    forall v
      ensures x[v] == y[v]
    {
      assert (x + multiset{e})[v] == (y + multiset{e})[v];
    }
  }

  /** The elements of a sequence are those with one position left out, and the one at that position. */
  lemma MultisetWithout<T>(s: seq<T>, i: nat)
    requires i < |s|
    ensures multiset(s) == multiset(s[..i] + s[i + 1..]) + multiset{s[i]}
  {
    assert s == s[..i] + [s[i]] + s[i + 1..];
  }

  /** Taking one entry out of a walk takes its ROM size off the total, and one ROM off the count if it is one. */
  lemma RomBytesRemove(b: seq<WalkEntry>, i: nat)
    requires i < |b|
    ensures RomBytes(b) == RomBytes(b[..i] + b[i + 1..]) + RomSize(b[i])
    ensures |RomEntries(b)| == |RomEntries(b[..i] + b[i + 1..])| + (if IsRom(b[i]) then 1 else 0)
  {
    var front, back, e := b[..i], b[i + 1..], b[i];
    assert b == (front + [e]) + back;
    RomBytesAppend(front + [e], back);
    RomBytesAppend(front, [e]);
    RomBytesAppend(front, back);
    RomBytesLast([e]);
    assert [e][..0] == [];
  }

  /** The body of the walk loop for one ROM: its byte length and its record. */
  method RecordStep(e: WalkEntry, baseUrl: string) returns (sizeBytes: nat, record: FileRecord)
    requires UnderBase(FilePath(e))
    ensures sizeBytes == e.size
    ensures record == MakeRecord(e, baseUrl)
  {
    var path := JoinPath(e.root, e.name);
    var region := Region(path);
    var name := ParseFileName(e.name);
    var (bytes, size) := GetFileSize(e.size);
    sizeBytes := bytes;
    var url := FileUrl(baseUrl, RelPath(path));
    record := FileRecord(e.name, name, region, size, url);
  }

  /**
    * One turn of the walk loop of list_nds_files: a file whose name ends in ".nds" gets its
    * record appended and its size added to the running total; any other file is skipped.
    */
  method WalkStep(entries: seq<WalkEntry>, baseUrl: string, k: nat, files: seq<FileRecord>, total: nat)
    returns (files': seq<FileRecord>, total': nat)
    requires AllAdmissible(entries)
    requires k < |entries|
    requires AllAdmissible(entries[..k])
    requires files == Records(entries[..k], baseUrl)
    requires total == RomBytes(entries[..k])
    ensures AllAdmissible(entries[..k + 1])
    ensures files' == Records(entries[..k + 1], baseUrl)
    ensures total' == RomBytes(entries[..k + 1])
  {
    var e := entries[k];
    if EndsWith(e.name, RomSuffix) {
      files', total' := TakeRom(entries, baseUrl, k, files, total);
    } else {
      RomBytesStep(entries, k);
      RecordsStep(entries, baseUrl, k);
      files', total' := files, total;
    }
  }

  /** The turn of the walk loop for a ROM: its record is appended and its size added. */
  method TakeRom(entries: seq<WalkEntry>, baseUrl: string, k: nat, files: seq<FileRecord>, total: nat)
    returns (files': seq<FileRecord>, total': nat)
    requires AllAdmissible(entries)
    requires k < |entries| && IsRom(entries[k])
    requires AllAdmissible(entries[..k])
    requires files == Records(entries[..k], baseUrl)
    requires total == RomBytes(entries[..k])
    ensures AllAdmissible(entries[..k + 1])
    ensures files' == Records(entries[..k + 1], baseUrl)
    ensures total' == RomBytes(entries[..k + 1])
  {
    var e := entries[k];
    assert Admissible(e);
    RomBytesStep(entries, k);
    RecordsStep(entries, baseUrl, k);
    var sizeBytes, record := RecordStep(e, baseUrl);
    total' := total + sizeBytes;
    files' := files + [record];
  }

  /** The walk loop of list_nds_files: the records and the byte total of the ROMs, in walk order. */
  method CollectRoms(entries: seq<WalkEntry>, baseUrl: string) returns (files: seq<FileRecord>, total: nat)
    requires AllAdmissible(entries)
    ensures files == Records(entries, baseUrl)
    ensures total == RomBytes(entries)
  {
    files := [];
    total := 0;
    for k := 0 to |entries|
      invariant AllAdmissible(entries[..k])
      invariant files == Records(entries[..k], baseUrl)
      invariant total == RomBytes(entries[..k])
    {
      files, total := WalkStep(entries, baseUrl, k, files, total);
    }
    assert entries[..|entries|] == entries;
  }

  /**
    * list_nds_files over a given walk: one record per ROM in walk order, the record count, and
    * convert_size of the ROMs' byte total, which raises once that total reaches 1024^5.
    */
  method ListNdsFiles(entries: seq<WalkEntry>, baseUrl: string) returns (r: Result<Summary>)
    requires AllAdmissible(entries)
    ensures r.Success? <==> RomBytes(entries) < Pow1024(|UnitNames|)
    ensures r.Success? ==>
      && r.value.files == Records(entries, baseUrl)
      && r.value.totalFiles == |RomEntries(entries)|
      && ConvertSize(RomBytes(entries)) == Success(r.value.totalSize)
    ensures r.Failure? ==> ConvertSize(RomBytes(entries)) == Failure(r.error)
    ensures entries == [] ==> r == Success(Summary(0, "0 B", []))
  {
    var files, total := CollectRoms(entries, baseUrl);
    var totalSize :- ConvertSize(total);
    r := Success(Summary(|files|, totalSize, files));
  }
}
