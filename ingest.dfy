/** The daily-snapshot combiner (concat_data in concat_data.py): pick the
    date folders inside [START, END], read every CSV in them except the
    pipeline's own outputs, normalise the columns, tag each row with its
    folder's date, clean the prices, and combine what was read into one
    table of rows with a name and a price. Listing folders, globbing files,
    reading and writing CSV text and the clock are left to the caller: a
    folder arrives with its files, a file with its parsed table (or None
    when read_csv raised), and START/END as strings. */
module Ingest {
  import opened Wrappers
  import opened Text
  import opened Sorting
  import opened Prices
  import opened Calendar

  /** A CSV file as read_csv returns it: header cells and rows of cells,
      None standing for an empty cell (NaN). */
  datatype Table = Table(header: seq<string>, rows: seq<seq<Option<string>>>)

  /** contents is None when read_csv raised on the file. */
  datatype CsvFile = CsvFile(path: string, contents: Option<Table>)

  datatype Folder = Folder(name: string, files: seq<CsvFile>)

  /** One row of one loaded file: brand, name, weight and price columns plus
      the folder's date as a day number. */
  datatype Row = Row(brand: Option<string>, name: Option<string>, weight: Option<string>,
                     price: Option<real>, date: int)

  type Frame = seq<Row>

  /** A row of the combined table: brand filled, name and price present. */
  datatype CombinedRow = CombinedRow(brand: string, name: string, weight: Option<string>,
                                     price: real, date: int)

  datatype IngestError =
    | NoDataInRange              // SystemExit("No data found in range.")
    | BadFolderDate(name: string) // pd.to_datetime raised on the folder name
    | RepeatedPriceColumn(path: string) // two columns normalise to "price", so df["price"] has no .str

  // -------------------------------------------------------------------------
  // Folder and file filters

  /** is_date_folder: the name is exactly eight digits. */
  predicate IsDateFolder(name: string)
  {
    |name| == 8 && AllDigits(name)
  }

  /** START_STR <= name <= END_STR, as Python compares strings. */
  predicate InRange(name: string, start: string, end: string)
  {
    LexLe(start, name) && LexLe(name, end)
  }

  predicate IsSelected(f: Folder, start: string, end: string)
  {
    IsDateFolder(f.name) && InRange(f.name, start, end)
  }

  /** Every name that converts to a date passes the eight-digit filter, but
      not the other way round: "20251399" passes it and names no date, so
      its folder ends the run (see LoadFile). */
  lemma DateFolderIsWeaker(name: string)
    ensures ParseYmd(name).Some? ==> IsDateFolder(name)
    ensures IsDateFolder("20251399") && ParseYmd("20251399").None?
  {
    var bad := "20251399";
    assert AllDigits(bad) by {
      assert forall i :: 0 <= i < |bad| ==> IsDigit(bad[i]);
    }
    assert bad[4..6] == "13";
    assert DigitsValue("13") == 13 by {
      assert DigitsValue("1") == 1;
    }
  }

  /** No name lies between bounds that are out of order. */
  lemma InRangeNeedsOrderedBounds(name: string, start: string, end: string)
    requires InRange(name, start, end)
    ensures LexLe(start, end)
  {
    LexLeTransitive(start, name, end);
  }

  /** The folders the list comprehension keeps, in listing order. */
  function SelectedFolders(folders: seq<Folder>, start: string, end: string): (r: seq<Folder>)
    ensures forall i :: 0 <= i < |r| ==> r[i] in folders && IsSelected(r[i], start, end)
    ensures forall i :: 0 <= i < |folders| && IsSelected(folders[i], start, end) ==> folders[i] in r
    ensures forall f :: IsSelected(f, start, end) ==> multiset(r)[f] == multiset(folders)[f]
  {
    if folders == [] then []
    else
      assert folders == Init(folders) + [Last(folders)];
      SelectedFolders(Init(folders), start, end) +
      (if IsSelected(Last(folders), start, end) then [Last(folders)] else [])
  }

  /** The sort key of a date folder: the number its digits spell. */
  function FolderKey(f: Folder): real
  {
    if IsDateFolder(f.name) then DigitsValue(f.name) as real else 0.0
  }

  /** sorted(date_folders): the selected folders in name order. */
  function FolderOrder(folders: seq<Folder>, start: string, end: string): (r: seq<Folder>)
    ensures multiset(r) == multiset(SelectedFolders(folders, start, end))
  {
    SortBy(SelectedFolders(folders, start, end), FolderKey)
  }

  /** The folders are visited in Python's string order of their names,
      which is what sorted() produces. */
  lemma FolderOrderSorted(folders: seq<Folder>, start: string, end: string)
    ensures var r := FolderOrder(folders, start, end);
      forall i, j :: 0 <= i < j < |r| ==> LexLe(r[i].name, r[j].name)
  {
    var s := SelectedFolders(folders, start, end);
    var r := FolderOrder(folders, start, end);
    SortBySorted(s, FolderKey);
    forall i, j | 0 <= i < j < |r|
      ensures LexLe(r[i].name, r[j].name)
    {
      assert r[i] in multiset(s) && r[j] in multiset(s);
      assert IsSelected(r[i], start, end) && IsSelected(r[j], start, end);
      assert FolderKey(r[i]) <= FolderKey(r[j]);
      LexLeDigits(r[i].name, r[j].name);
    }
  }

  /** For folder names and bounds that are real dates, the string range
      test is the date range test. */
  lemma InRangeIsDateRange(name: string, start: string, end: string)
    requires ParseYmd(name).Some? && ParseYmd(start).Some? && ParseYmd(end).Some?
    ensures InRange(name, start, end) <==>
      ParseYmd(start).value <= ParseYmd(name).value <= ParseYmd(end).value
  {
    YmdOrderIsDateOrder(start, name);
    YmdOrderIsDateOrder(name, end);
  }

  /** Files whose path mentions "combined" or "anomalies" are skipped. */
  predicate SkipFile(path: string)
  {
    Contains(path, "combined") || Contains(path, "anomalies")
  }

  /** A path is skipped exactly when "combined" or "anomalies" occurs in it
      at some position. */
  lemma SkipFileIff(path: string)
    ensures SkipFile(path) <==>
      (exists i :: OccursAt(path, "combined", i)) || (exists i :: OccursAt(path, "anomalies", i))
  {
    ContainsIff(path, "combined");
    ContainsIff(path, "anomalies");
  }

  /** The pipeline's own outputs are never read back in as input. */
  lemma OutputsAreSkipped(dir: string, start: string, end: string, today: string)
    ensures SkipFile(dir + "combined_" + start + "_to_" + end + ".csv")
    ensures SkipFile(dir + "price_anomalies_" + today + ".csv")
  {
    var p := dir + "combined_" + start + "_to_" + end + ".csv";
    assert p == dir + "combined" + ("_" + start + "_to_" + end + ".csv");
    ContainsMiddle(dir, "combined", "_" + start + "_to_" + end + ".csv");
    var q := dir + "price_anomalies_" + today + ".csv";
    assert q == (dir + "price_") + "anomalies" + ("_" + today + ".csv");
    ContainsMiddle(dir + "price_", "anomalies", "_" + today + ".csv");
  }

  // -------------------------------------------------------------------------
  // Columns

  /** c.lower().strip() */
  function NormaliseColumn(c: string): (r: string)
    ensures forall i :: 0 <= i < |r| ==> !('A' <= r[i] <= 'Z')
    ensures r == [] || (!IsSpace(r[0]) && !IsSpace(r[|r| - 1]))
  {
    LowerHasNoUpper(c);
    StripKeeps(Lower(c), ch => !('A' <= ch <= 'Z'));
    Strip(Lower(c))
  }

  lemma {:induction false} LowerOfLower(s: string)
    requires forall i :: 0 <= i < |s| ==> !('A' <= s[i] <= 'Z')
    ensures Lower(s) == s
  {
  }

  /** Normalising a normalised header changes nothing. */
  lemma NormaliseColumnIdempotent(c: string)
    ensures NormaliseColumn(NormaliseColumn(c)) == NormaliseColumn(c)
  {
    var n := NormaliseColumn(c);
    LowerOfLower(n);
    StripIdempotent(Lower(c));
  }

  function NormaliseHeader(header: seq<string>): (r: seq<string>)
    ensures |r| == |header|
    ensures forall i :: 0 <= i < |header| ==> r[i] == NormaliseColumn(header[i])
  {
    seq(|header|, i requires 0 <= i < |header| => NormaliseColumn(header[i]))
  }

  /** "Price" and "price" both normalise to "price": the header repeats it,
      and LoadFile fails on such a file. */
  lemma CaseVariantsCollide()
    ensures Repeated(NormaliseHeader(["Price", "price", "name"]), "price")
  {
    var raw := ["Price", "price", "name"];
    var h := NormaliseHeader(raw);
    NormalisesToPrice(raw[0]);
    NormalisesToPrice(raw[1]);
    assert |h| == 3 && h[0] == NormaliseColumn(raw[0]) && h[1] == NormaliseColumn(raw[1]);
    assert h[0] == "price" && h[1] == "price";
  }

  lemma NormalisesToPrice(c: string)
    requires c == "Price" || c == "price"
    ensures NormaliseColumn(c) == "price"
  {
    var l := Lower(c);
    assert |l| == 5;
    assert l[0] == 'p' by {
      assert LowerChar(c[0]) == 'p';
    }
    assert l[1..] == "rice" by {
      assert forall i :: 1 <= i < 5 ==> l[i] == c[i] == "price"[i];
    }
    assert l == "price";
    StripTrimmed("price");
  }

  /** Position of the first column called col. */
  function ColumnIndex(header: seq<string>, col: string): (r: Option<nat>)
    ensures r.None? <==> col !in header
    ensures r.Some? ==> (r.value < |header| && header[r.value] == col &&
      forall i :: 0 <= i < r.value ==> header[i] != col)
  {
    if header == [] then None
    else if header[0] == col then Some(0)
    else match ColumnIndex(header[1..], col)
      case None => None
      case Some(i) => Some(i + 1)
  }

  /** A cell of a row; short rows read as NaN past their end. */
  function CellAt(row: seq<Option<string>>, i: nat): Option<string>
  {
    if i < |row| then row[i] else None
  }

  /** The value of column col in a row; a column the file lacks is filled
      with the empty string. */
  function Field(header: seq<string>, row: seq<Option<string>>, col: string): (r: Option<string>)
    ensures col !in header ==> r == Some("")
  {
    match ColumnIndex(header, col)
    case None => Some("")
    case Some(i) => CellAt(row, i)
  }

  /** The price column: cleaned, then coerced to a number or NaN. */
  function PriceCell(c: Option<string>): (r: Option<real>)
    ensures c.None? ==> r.None?
  {
    match c
    case None => None
    case Some(t) => ParsePrice(t)
  }

  predicate HasRequiredColumns(header: seq<string>)
  {
    "name" in header && "price" in header
  }

  function MakeRow(header: seq<string>, row: seq<Option<string>>, day: int): (r: Row)
    ensures r.date == day
  {
    Row(Field(header, row, "brand"), Field(header, row, "name"), Field(header, row, "weight"),
        PriceCell(Field(header, row, "price")), day)
  }

  /** One file's frame, or None when the normalised header lacks name or
      price. Each column is read from its first occurrence; LoadFile has
      already rejected a header that repeats "price". */
  function BuildFrame(t: Table, day: int): (r: Option<Frame>)
    ensures r.Some? <==> HasRequiredColumns(NormaliseHeader(t.header))
    ensures r.Some? ==> (|r.value| == |t.rows| &&
      forall i :: 0 <= i < |t.rows| ==> r.value[i] == MakeRow(NormaliseHeader(t.header), t.rows[i], day))
  {
    var header := NormaliseHeader(t.header);
    if HasRequiredColumns(header) then
      Some(seq(|t.rows|, i requires 0 <= i < |t.rows| => MakeRow(header, t.rows[i], day)))
    else None
  }

  /** A file without a brand column gives every row the empty brand, and
      every row carries its folder's date. */
  lemma BuildFrameMissingBrand(t: Table, day: int)
    requires BuildFrame(t, day).Some?
    requires "brand" !in NormaliseHeader(t.header)
    ensures forall r :: r in BuildFrame(t, day).value ==> r.brand == Some("") && r.date == day
  {
  }

  /** col names more than one column. read_csv already renames a repeated
      raw name, so this happens when two names differ only in case or in
      surrounding whitespace. */
  predicate Repeated(header: seq<string>, col: string)
  {
    exists i, j :: 0 <= i < j < |header| && header[i] == col && header[j] == col
  }

  /** A file the loop body reaches the date and price steps with: not
      skipped, readable, and with name and price columns. */
  predicate Usable(f: CsvFile)
  {
    !SkipFile(f.path) && f.contents.Some? && HasRequiredColumns(NormaliseHeader(f.contents.value.header))
  }

  /** Every row of the frame carries the date the folder name spells. */
  predicate DatedBy(x: Frame, folderName: string)
  {
    forall row :: row in x ==> Some(row.date) == ParseYmd(folderName)
  }

  /** What the loop body does with one file of a folder: skip it (None),
      give its frame, or fail, on a folder name that is not a date or on a
      repeated price column (outside the try around read_csv, both end the
      run). */
  function LoadFile(f: CsvFile, folderName: string): (r: Result<Option<Frame>, IngestError>)
    ensures !Usable(f) ==> r == Success(None)
    ensures r.Failure? <==> (Usable(f) &&
      (ParseYmd(folderName).None? || Repeated(NormaliseHeader(f.contents.value.header), "price")))
    ensures r.Failure? && ParseYmd(folderName).None? ==> r.error == BadFolderDate(folderName)
    ensures r.Failure? && ParseYmd(folderName).Some? ==> r.error == RepeatedPriceColumn(f.path)
    ensures r.Success? && r.value.Some? ==> (Usable(f) && ParseYmd(folderName).Some? &&
      !Repeated(NormaliseHeader(f.contents.value.header), "price") &&
      r.value == BuildFrame(f.contents.value, ParseYmd(folderName).value))
    ensures r.Success? && r.value.Some? ==> DatedBy(r.value.value, folderName)
  {
    if SkipFile(f.path) then Success(None)
    else match f.contents
      case None => Success(None)
      case Some(t) =>
        var header := NormaliseHeader(t.header);
        if !HasRequiredColumns(header) then Success(None)
        else match ParseYmd(folderName)
          case None => Failure(BadFolderDate(folderName))
          case Some(day) =>
            if Repeated(header, "price") then Failure(RepeatedPriceColumn(f.path))
            else Success(BuildFrame(t, day))
  }

  /** The frames of files, appended to acc in file order: frames are only
      appended, at most one per file. */
  function FilesFrames(name: string, files: seq<CsvFile>, acc: seq<Frame>): (r: Result<seq<Frame>, IngestError>)
    ensures r.Success? ==> |acc| <= |r.value| <= |acc| + |files| && r.value[..|acc|] == acc
  {
    if files == [] then Success(acc)
    else match FilesFrames(name, Init(files), acc)
      case Failure(e) => Failure(e)
      case Success(fr) =>
        match LoadFile(Last(files), name)
        case Failure(e) => Failure(e)
        case Success(None) => Success(fr)
        case Success(Some(x)) =>
          Success(fr + [x])
  }

  /** The frames of the given folders, in order: every row carries the date
      of one of the folders. */
  function FramesOf(folders: seq<Folder>): (r: Result<seq<Frame>, IngestError>)
    ensures r.Success? ==> forall i :: 0 <= i < |r.value| ==>
      (exists n :: 0 <= n < |folders| && DatedBy(r.value[i], folders[n].name))
  {
    if folders == [] then Success([])
    else match FramesOf(Init(folders))
      case Failure(e) => Failure(e)
      case Success(fr) =>
        var last := Last(folders);
        var r := FilesFrames(last.name, last.files, fr);
        if r.Success? then
          FilesFramesDated(last.name, last.files, fr);
          assert forall i :: 0 <= i < |fr| ==> r.value[i] == fr[i];
          assert forall n :: 0 <= n < |Init(folders)| ==> Init(folders)[n] == folders[n];
          assert last == folders[|folders| - 1];
          r
        else r
  }

  /** Every frame a folder's files add carries the folder's date. */
  lemma {:induction false} FilesFramesDated(name: string, files: seq<CsvFile>, acc: seq<Frame>)
    requires FilesFrames(name, files, acc).Success?
    ensures var r := FilesFrames(name, files, acc).value;
      forall i :: |acc| <= i < |r| ==> DatedBy(r[i], name)
  {
    if files != [] {
      FilesFramesDated(name, Init(files), acc);
      var fr := FilesFrames(name, Init(files), acc).value;
      var r := FilesFrames(name, files, acc).value;
      if r != fr {
        var x := LoadFile(Last(files), name).value.value;
        assert r == fr + [x];
        assert forall i :: |acc| <= i < |fr| ==> r[i] == fr[i];
      }
    }
  }

  /** The frame a file gives to the loop, None when it gives none (or fails). */
  function Outcome(f: CsvFile, folderName: string): (r: Option<Frame>)
    ensures r.Some? <==> LoadFile(f, folderName).Success? && LoadFile(f, folderName).value.Some?
    ensures r.Some? ==> LoadFile(f, folderName) == Success(Some(r.value))
  {
    match LoadFile(f, folderName)
    case Success(o) => o
    case Failure(_) => None
  }

  /** What each file of a folder gives, file by file. */
  function Outcomes(name: string, files: seq<CsvFile>): (r: seq<Option<Frame>>)
    ensures |r| == |files| && forall i :: 0 <= i < |files| ==> r[i] == Outcome(files[i], name)
  {
    seq(|files|, i requires 0 <= i < |files| => Outcome(files[i], name))
  }

  /** out holds the values of the positions idx lists, in that order; idx
      rises and lists every position of given that holds a value. */
  predicate Collects<T(==)>(given: seq<Option<T>>, out: seq<T>, idx: seq<int>)
  {
    |idx| == |out| &&
    (forall k :: 0 <= k < |idx| ==> 0 <= idx[k] < |given| && given[idx[k]] == Some(out[k])) &&
    (forall k, l :: 0 <= k < l < |idx| ==> idx[k] < idx[l]) &&
    (forall i :: 0 <= i < |given| && given[i].Some? ==> i in idx)
  }

  /** Collecting one more position keeps the collection exact. */
  lemma CollectsSnoc<T>(given: seq<Option<T>>, out: seq<T>, idx: seq<int>, o: Option<T>)
    requires Collects(given, out, idx)
    ensures o.Some? ==> Collects(given + [o], out + [o.value], idx + [|given|])
    ensures o.None? ==> Collects(given + [o], out, idx)
  {
    var g := given + [o];
    if o.Some? {
      var idx' := idx + [|given|];
      var out' := out + [o.value];
      forall k | 0 <= k < |idx'|
        ensures 0 <= idx'[k] < |g| && g[idx'[k]] == Some(out'[k])
      {
        if k < |idx| {
          assert idx'[k] == idx[k] && out'[k] == out[k] && g[idx[k]] == given[idx[k]];
        }
      }
      forall i | 0 <= i < |g| && g[i].Some?
        ensures i in idx'
      {
        if i < |given| {
          assert g[i] == given[i];
          assert i in idx;
        } else {
          assert idx'[|idx|] == i;
        }
      }
    } else {
      forall k | 0 <= k < |idx|
        ensures g[idx[k]] == given[idx[k]]
      {
      }
      forall i | 0 <= i < |g| && g[i].Some?
        ensures i in idx
      {
        assert g[i] == given[i];
      }
    }
  }

  lemma OutcomesSnoc(name: string, files: seq<CsvFile>)
    requires files != []
    ensures Outcomes(name, files) == Outcomes(name, Init(files)) + [Outcome(Last(files), name)]
  {
    var a := Outcomes(name, files);
    var b := Outcomes(name, Init(files)) + [Outcome(Last(files), name)];
    assert |a| == |b|;
    forall i | 0 <= i < |a|
      ensures a[i] == b[i]
    {
      if i < |files| - 1 {
        assert Init(files)[i] == files[i];
      }
    }
  }

  /** A successful file loop is the loop over all but the last file, plus
      the last file's frame if it gives one. */
  lemma FilesFramesLast(name: string, files: seq<CsvFile>, acc: seq<Frame>)
    requires files != [] && FilesFrames(name, files, acc).Success?
    ensures FilesFrames(name, Init(files), acc).Success?
    ensures var o := Outcome(Last(files), name);
      FilesFrames(name, files, acc).value ==
        FilesFrames(name, Init(files), acc).value + (if o.Some? then [o.value] else [])
  {
  }

  /** What a folder's file loop appends is exactly the frames of the files
      that give one, each once and in file order. */
  lemma {:induction false} FilesFramesCollects(name: string, files: seq<CsvFile>, acc: seq<Frame>)
    requires FilesFrames(name, files, acc).Success?
    ensures exists idx :: Collects(Outcomes(name, files), FilesFrames(name, files, acc).value[|acc|..], idx)
  {
    var r := FilesFrames(name, files, acc).value;
    if files == [] {
      assert Collects(Outcomes(name, files), r[|acc|..], []);
    } else {
      FilesFramesLast(name, files, acc);
      var fr := FilesFrames(name, Init(files), acc).value;
      FilesFramesCollects(name, Init(files), acc);
      var given := Outcomes(name, Init(files));
      var tail0 := fr[|acc|..];
      var idx0 :| Collects(given, tail0, idx0);
      var o := Outcome(Last(files), name);
      OutcomesSnoc(name, files);
      CollectsSnoc(given, tail0, idx0, o);
      var tail := r[|acc|..];
      if o.Some? {
        assert tail == tail0 + [o.value];
        assert Collects(given + [o], tail0 + [o.value], idx0 + [|given|]);
        assert Collects(Outcomes(name, files), tail, idx0 + [|given|]);
      } else {
        assert tail == tail0;
        assert Collects(given + [o], tail0, idx0);
        assert Collects(Outcomes(name, files), tail, idx0);
      }
    }
  }

  /** Every file that gives a frame contributes it. */
  lemma FilesFramesKeeps(name: string, files: seq<CsvFile>, acc: seq<Frame>, i: int, x: Frame)
    requires FilesFrames(name, files, acc).Success?
    requires 0 <= i < |files| && LoadFile(files[i], name) == Success(Some(x))
    ensures x in FilesFrames(name, files, acc).value[|acc|..]
  {
    FilesFramesCollects(name, files, acc);
    var out := FilesFrames(name, files, acc).value[|acc|..];
    var idx :| Collects(Outcomes(name, files), out, idx);
    assert Outcomes(name, files)[i] == Some(x);
    var k :| 0 <= k < |idx| && idx[k] == i;
    assert out[k] == x;
  }

  /** Position (group, member) p comes before q. */
  predicate Before(p: (int, int), q: (int, int))
  {
    p.0 < q.0 || (p.0 == q.0 && p.1 < q.1)
  }

  /** out holds the values of the (group, member) positions idx lists, in
      that order; idx rises and lists every position that holds a value. */
  predicate CollectsNested<T(==)>(given: seq<seq<Option<T>>>, out: seq<T>, idx: seq<(int, int)>)
  {
    |idx| == |out| &&
    (forall k :: 0 <= k < |idx| ==>
      0 <= idx[k].0 < |given| && 0 <= idx[k].1 < |given[idx[k].0]| &&
      given[idx[k].0][idx[k].1] == Some(out[k])) &&
    (forall k, l :: 0 <= k < l < |idx| ==> Before(idx[k], idx[l])) &&
    (forall n, i :: (0 <= n < |given| && 0 <= i < |given[n]| && given[n][i].Some?) ==> (n, i) in idx)
  }

  /** The positions of group n, as (group, member) pairs. */
  function AtPart(n: int, idx: seq<int>): (r: seq<(int, int)>)
    ensures |r| == |idx| && forall k :: 0 <= k < |idx| ==> r[k] == (n, idx[k])
  {
    seq(|idx|, k requires 0 <= k < |idx| => (n, idx[k]))
  }

  /** Appending one more group's collection keeps the collection exact. */
  lemma CollectsNestedSnoc<T>(given: seq<seq<Option<T>>>, out: seq<T>, idx: seq<(int, int)>,
                              g: seq<Option<T>>, tail: seq<T>, idxL: seq<int>)
    requires CollectsNested(given, out, idx) && Collects(g, tail, idxL)
    ensures CollectsNested(given + [g], out + tail, idx + AtPart(|given|, idxL))
  {
    var n := |given|;
    var all := given + [g];
    var idx' := idx + AtPart(n, idxL);
    var out' := out + tail;
    forall k | 0 <= k < |idx'|
      ensures 0 <= idx'[k].0 < |all| && 0 <= idx'[k].1 < |all[idx'[k].0]| &&
        all[idx'[k].0][idx'[k].1] == Some(out'[k])
    {
      if k < |idx| {
        assert idx'[k] == idx[k] && out'[k] == out[k] && all[idx[k].0] == given[idx[k].0];
      } else {
        assert idx'[k] == (n, idxL[k - |idx|]) && out'[k] == tail[k - |idx|] && all[n] == g;
      }
    }
    forall k, l | 0 <= k < l < |idx'|
      ensures Before(idx'[k], idx'[l])
    {
      if l < |idx| {
        assert idx'[k] == idx[k] && idx'[l] == idx[l];
      } else if k < |idx| {
        assert idx'[k] == idx[k] && idx'[l].0 == n;
      } else {
        assert idx'[k] == (n, idxL[k - |idx|]) && idx'[l] == (n, idxL[l - |idx|]);
      }
    }
    forall m, i | 0 <= m < |all| && 0 <= i < |all[m]| && all[m][i].Some?
      ensures (m, i) in idx'
    {
      if m < n {
        assert all[m] == given[m];
        var k :| 0 <= k < |idx| && idx[k] == (m, i);
        assert idx'[k] == (m, i);
      } else {
        assert all[m] == g;
        var j :| 0 <= j < |idxL| && idxL[j] == i;
        assert idx'[|idx| + j] == (m, i);
      }
    }
  }

  /** What each file of each folder gives, folder by folder. */
  function FolderOutcomes(folders: seq<Folder>): (r: seq<seq<Option<Frame>>>)
    ensures |r| == |folders| &&
      forall n :: 0 <= n < |folders| ==> r[n] == Outcomes(folders[n].name, folders[n].files)
  {
    seq(|folders|, n requires 0 <= n < |folders| => Outcomes(folders[n].name, folders[n].files))
  }

  /** A successful frames loop is the loop over all but the last folder,
      extended by the last folder's file loop. */
  lemma FramesOfLast(folders: seq<Folder>)
    requires folders != [] && FramesOf(folders).Success?
    ensures FramesOf(Init(folders)).Success?
    ensures FramesOf(folders) ==
      FilesFrames(Last(folders).name, Last(folders).files, FramesOf(Init(folders)).value)
  {
  }

  lemma FolderOutcomesSnoc(folders: seq<Folder>)
    requires folders != []
    ensures FolderOutcomes(folders) ==
      FolderOutcomes(Init(folders)) + [Outcomes(Last(folders).name, Last(folders).files)]
  {
    var a := FolderOutcomes(folders);
    var b := FolderOutcomes(Init(folders)) + [Outcomes(Last(folders).name, Last(folders).files)];
    forall n | 0 <= n < |a|
      ensures a[n] == b[n]
    {
      if n < |folders| - 1 {
        assert Init(folders)[n] == folders[n];
      }
    }
  }

  /** The frames loop collects exactly the frames of the files that give
      one, across all the folders, each once and in visit order. */
  lemma {:induction false} FramesOfCollects(folders: seq<Folder>)
    requires FramesOf(folders).Success?
    ensures exists idx :: CollectsNested(FolderOutcomes(folders), FramesOf(folders).value, idx)
  {
    if folders == [] {
      assert CollectsNested(FolderOutcomes(folders), [], []);
    } else {
      FramesOfLast(folders);
      FramesOfCollects(Init(folders));
      var fr := FramesOf(Init(folders)).value;
      var given := FolderOutcomes(Init(folders));
      var idx0 :| CollectsNested(given, fr, idx0);
      var last := Last(folders);
      var r := FramesOf(folders).value;
      assert r == FilesFrames(last.name, last.files, fr).value;
      FilesFramesCollects(last.name, last.files, fr);
      var g := Outcomes(last.name, last.files);
      var tail := r[|fr|..];
      var idxL :| Collects(g, tail, idxL);
      assert r == fr + tail;
      FolderOutcomesSnoc(folders);
      CollectsNestedSnoc(given, fr, idx0, g, tail, idxL);
      assert CollectsNested(given + [g], fr + tail, idx0 + AtPart(|given|, idxL));
      assert CollectsNested(FolderOutcomes(folders), r, idx0 + AtPart(|given|, idxL));
    }
  }

  /** Every file of every folder that gives a frame contributes it. */
  lemma FramesOfKeeps(folders: seq<Folder>, n: int, i: int, x: Frame)
    requires FramesOf(folders).Success?
    requires 0 <= n < |folders| && 0 <= i < |folders[n].files|
    requires LoadFile(folders[n].files[i], folders[n].name) == Success(Some(x))
    ensures x in FramesOf(folders).value
  {
    FramesOfCollects(folders);
    var idx :| CollectsNested(FolderOutcomes(folders), FramesOf(folders).value, idx);
    assert FolderOutcomes(folders)[n][i] == Some(x);
    var k :| 0 <= k < |idx| && idx[k] == (n, i);
    assert FramesOf(folders).value[k] == x;
  }

  /** The only error of a folder's files is the error of one of them. */
  lemma {:induction false} FilesFramesFailureOrigin(name: string, files: seq<CsvFile>, acc: seq<Frame>)
    requires FilesFrames(name, files, acc).Failure?
    ensures exists i :: 0 <= i < |files| && LoadFile(files[i], name) == Failure(FilesFrames(name, files, acc).error)
  {
    var e := FilesFrames(name, files, acc).error;
    if FilesFrames(name, Init(files), acc).Failure? {
      FilesFramesFailureOrigin(name, Init(files), acc);
      var i :| 0 <= i < |Init(files)| && LoadFile(Init(files)[i], name) == Failure(e);
      assert files[i] == Init(files)[i];
    } else {
      assert LoadFile(files[|files| - 1], name) == Failure(e);
    }
  }

  /** The only error of the frames loop is the error of one file of one folder. */
  lemma {:induction false} FramesOfFailureOrigin(folders: seq<Folder>)
    requires FramesOf(folders).Failure?
    ensures exists n, i :: (0 <= n < |folders| && 0 <= i < |folders[n].files| &&
      LoadFile(folders[n].files[i], folders[n].name) == Failure(FramesOf(folders).error))
  {
    var e := FramesOf(folders).error;
    if FramesOf(Init(folders)).Failure? {
      FramesOfFailureOrigin(Init(folders));
      var n, i :| 0 <= n < |Init(folders)| && 0 <= i < |Init(folders)[n].files| &&
        LoadFile(Init(folders)[n].files[i], Init(folders)[n].name) == Failure(e);
      assert folders[n] == Init(folders)[n];
    } else {
      var last := folders[|folders| - 1];
      FilesFramesFailureOrigin(last.name, last.files, FramesOf(Init(folders)).value);
      var i :| 0 <= i < |last.files| && LoadFile(last.files[i], last.name) == Failure(e);
      assert folders[|folders| - 1].files[i] == last.files[i];
    }
  }

  /** One more file: its frame, if any, is appended. */
  lemma FilesFramesStep(name: string, files: seq<CsvFile>, j: nat, acc: seq<Frame>, fr: seq<Frame>)
    requires j < |files| && FilesFrames(name, files[..j], acc) == Success(fr)
    ensures FilesFrames(name, files[..j + 1], acc) ==
      match LoadFile(files[j], name)
      case Failure(e) => Failure(e)
      case Success(None) => Success(fr)
      case Success(Some(x)) => Success(fr + [x])
  {
    InitLast(files[..j], files[j]);
    assert files[..j + 1] == files[..j] + [files[j]];
  }

  /** One more folder: its files' frames are appended. */
  lemma FramesOfStep(folders: seq<Folder>, i: nat, fr: seq<Frame>)
    requires i < |folders| && FramesOf(folders[..i]) == Success(fr)
    ensures FramesOf(folders[..i + 1]) == FilesFrames(folders[i].name, folders[i].files, fr)
  {
    InitLast(folders[..i], folders[i]);
    assert folders[..i + 1] == folders[..i] + [folders[i]];
  }

  /** An exception ends the loop: once a prefix of the files fails, so do
      all the files, with that error. */
  lemma {:induction false} FilesFramesFailurePersists(name: string, files: seq<CsvFile>, k: nat, acc: seq<Frame>)
    requires k <= |files| && FilesFrames(name, files[..k], acc).Failure?
    ensures FilesFrames(name, files, acc) == FilesFrames(name, files[..k], acc)
    decreases |files| - k
  {
    if k < |files| {
      InitLast(files[..k], files[k]);
      assert files[..k + 1] == files[..k] + [files[k]];
      assert Init(files[..k + 1]) == files[..k];
      assert FilesFrames(name, files[..k + 1], acc) == FilesFrames(name, files[..k], acc);
      FilesFramesFailurePersists(name, files, k + 1, acc);
    } else {
      assert files[..k] == files;
    }
  }

  lemma {:induction false} FramesOfFailurePersists(folders: seq<Folder>, k: nat)
    requires k <= |folders| && FramesOf(folders[..k]).Failure?
    ensures FramesOf(folders) == FramesOf(folders[..k])
    decreases |folders| - k
  {
    if k < |folders| {
      InitLast(folders[..k], folders[k]);
      assert folders[..k + 1] == folders[..k] + [folders[k]];
      assert Init(folders[..k + 1]) == folders[..k];
      assert FramesOf(folders[..k + 1]) == FramesOf(folders[..k]);
      FramesOfFailurePersists(folders, k + 1);
    } else {
      assert folders[..k] == folders;
    }
  }

  /** The frames loop (concat_data.py, "Load and combine"). */
  method LoadFrames(folders: seq<Folder>, start: string, end: string)
    returns (r: Result<seq<Frame>, IngestError>)
    ensures r == FramesOf(FolderOrder(folders, start, end))
  {
    var order := FolderOrder(folders, start, end);
    var frames: seq<Frame> := [];
    var i := 0;
    while i < |order|
      invariant 0 <= i <= |order|
      invariant FramesOf(order[..i]) == Success(frames)
    {
      var folder := order[i];
      ghost var before := frames;
      var j := 0;
      while j < |folder.files|
        invariant 0 <= j <= |folder.files|
        invariant FilesFrames(folder.name, folder.files[..j], before) == Success(frames)
      {
        FilesFramesStep(folder.name, folder.files, j, before, frames);
        var loaded := LoadFile(folder.files[j], folder.name);
        if loaded.Failure? {
          FilesFramesFailurePersists(folder.name, folder.files, j + 1, before);
          FramesOfStep(order, i, before);
          FramesOfFailurePersists(order, i + 1);
          r := Failure(loaded.error);
          return;
        }
        if loaded.value.Some? {
          frames := frames + [loaded.value.value];
        }
        j := j + 1;
      }
      assert folder.files[..j] == folder.files;
      FramesOfStep(order, i, before);
      i := i + 1;
    }
    assert order[..i] == order;
    r := Success(frames);
  }

  // -------------------------------------------------------------------------
  // Combining

  function Flatten(frames: seq<Frame>): (r: seq<Row>)
    ensures forall f, row :: f in frames && row in f ==> row in r
    ensures forall row :: row in r ==> exists f :: f in frames && row in f
  {
    if frames == [] then [] else frames[0] + Flatten(frames[1..])
  }

  /** dropna(subset=["name", "price"]): the rows that have both, in order. */
  function Complete(rows: seq<Row>): (r: seq<Row>)
    ensures |r| <= |rows|
    ensures forall i :: 0 <= i < |r| ==> r[i] in rows && r[i].name.Some? && r[i].price.Some?
    ensures forall i :: 0 <= i < |rows| && rows[i].name.Some? && rows[i].price.Some? ==> rows[i] in r
  {
    if rows == [] then []
    else
      Complete(Init(rows)) +
      (if Last(rows).name.Some? && Last(rows).price.Some? then [Last(rows)] else [])
  }

  /** pd.concat keeps every row of every frame, in frame order. */
  lemma {:induction false} FlattenAppend(a: seq<Frame>, b: seq<Frame>)
    ensures Flatten(a + b) == Flatten(a) + Flatten(b)
  {
    if a != [] {
      assert (a + b)[1..] == a[1..] + b;
      FlattenAppend(a[1..], b);
    } else {
      assert a + b == b;
    }
  }

  /** Each frame contributes all its rows, once, in place. */
  lemma FlattenSplit(a: seq<Frame>, f: Frame, b: seq<Frame>)
    ensures Flatten(a + [f] + b) == Flatten(a) + f + Flatten(b)
  {
    FlattenAppend(a + [f], b);
    FlattenAppend(a, [f]);
    assert [f][1..] == [];
  }

  /** dropna keeps order and multiplicity: the complete rows of a
      concatenation are the concatenation of the complete rows. */
  lemma {:induction false} CompleteAppend(a: seq<Row>, b: seq<Row>)
    ensures Complete(a + b) == Complete(a) + Complete(b)
  {
    if b == [] {
      assert a + b == a;
    } else {
      assert Init(a + b) == a + Init(b);
      assert Last(a + b) == Last(b);
      CompleteAppend(a, Init(b));
    }
  }

  /** A row in the middle is kept, once and in place, exactly when it has a
      name and a price. */
  lemma CompleteSplit(a: seq<Row>, row: Row, b: seq<Row>)
    ensures Complete(a + [row] + b) ==
      Complete(a) + (if row.name.Some? && row.price.Some? then [row] else []) + Complete(b)
  {
    CompleteAppend(a + [row], b);
    CompleteAppend(a, [row]);
    assert Init([row]) == [];
  }

  /** brand.fillna("") on a complete row. */
  function FillBrand(row: Row): (c: CombinedRow)
    requires row.name.Some? && row.price.Some?
    ensures c.brand == (if row.brand.Some? then row.brand.value else "")
    ensures c.name == row.name.value && c.price == row.price.value
    ensures c.weight == row.weight && c.date == row.date
  {
    CombinedRow(if row.brand.Some? then row.brand.value else "", row.name.value, row.weight,
                row.price.value, row.date)
  }

  /** The combined table of a non-empty list of frames. */
  function Combine(frames: seq<Frame>): (r: seq<CombinedRow>)
    ensures var kept := Complete(Flatten(frames));
      |r| == |kept| && forall i :: 0 <= i < |r| ==> r[i] == FillBrand(kept[i])
  {
    var kept := Complete(Flatten(frames));
    seq(|kept|, i requires 0 <= i < |kept| => FillBrand(kept[i]))
  }

  /** The combined table keeps frame order: combining a concatenation of
      frame lists is concatenating their combined tables. */
  lemma CombineAppend(a: seq<Frame>, b: seq<Frame>)
    ensures Combine(a + b) == Combine(a) + Combine(b)
  {
    FlattenAppend(a, b);
    CompleteAppend(Flatten(a), Flatten(b));
    var ka, kb := Complete(Flatten(a)), Complete(Flatten(b));
    assert Complete(Flatten(a + b)) == ka + kb;
    var l, r := Combine(a) + Combine(b), Combine(a + b);
    assert |l| == |r|;
    forall i | 0 <= i < |r|
      ensures r[i] == l[i]
    {
      if i < |ka| {
        assert (ka + kb)[i] == ka[i];
      } else {
        assert (ka + kb)[i] == kb[i - |ka|];
      }
    }
  }

  /** concat_data without its file output: the combined rows, or the error
      that ends the run. */
  method ConcatData(folders: seq<Folder>, start: string, end: string)
    returns (r: Result<seq<CombinedRow>, IngestError>)
    ensures FramesOf(FolderOrder(folders, start, end)) == Success([]) ==> r == Failure(NoDataInRange)
    ensures FramesOf(FolderOrder(folders, start, end)).Failure? ==>
      r == Failure(FramesOf(FolderOrder(folders, start, end)).error)
    ensures r.Success? ==> (FramesOf(FolderOrder(folders, start, end)).Success? &&
      var frames := FramesOf(FolderOrder(folders, start, end)).value;
      frames != [] && r.value == Combine(frames))
    ensures (FramesOf(FolderOrder(folders, start, end)).Success? &&
             FramesOf(FolderOrder(folders, start, end)).value != []) ==>
      r == Success(Combine(FramesOf(FolderOrder(folders, start, end)).value))
  {
    var loaded := LoadFrames(folders, start, end);
    match loaded {
      case Failure(e) =>
        r := Failure(e);
      case Success(frames) =>
        if frames == [] {
          r := Failure(NoDataInRange);
        } else {
          r := Success(Combine(frames));
        }
    }
  }

  /** A row of the combined table came from a loaded row with a name and a
      price; its brand is that row's brand or "" when it had none. */
  lemma CombinedRowOrigin(frames: seq<Frame>, c: CombinedRow)
    requires c in Combine(frames)
    ensures exists row :: row in Flatten(frames) && row.name.Some? && row.price.Some? && c == FillBrand(row)
  {
    var r := Combine(frames);
    var kept := Complete(Flatten(frames));
    var i :| 0 <= i < |r| && r[i] == c;
    assert kept[i] in Flatten(frames);
  }
}
