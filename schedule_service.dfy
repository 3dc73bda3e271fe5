/** app/services/schedule_service.py: the upload filter and aggregation of
    `process_uploaded_files`, the create-or-update dispatch of
    `save_schedules`, `load_schedules` and `delete_session_data`.
    `secure_filename` is a parameter; a workbook that `pd.ExcelFile` cannot
    open is an upload whose `book` is None. */
module ScheduleService {
  import opened Wrappers
  import opened Strings
  import opened Heuristics
  import opened Sheets
  import opened ScheduleModel
  import ExcelParser
  import SessionRepo
  import opened Outcomes

  /** An uploaded file: its name (None when the browser sent none) and its
      content read as a workbook, or None when it cannot be read as one. */
  datatype Upload = Upload(filename: Option<string>, book: Option<seq<Sheet>>)

  /** `file.filename or ""`. */
  function Name(u: Upload): string {
    u.filename.GetOr("")
  }

  /** The filter of `process_uploaded_files`: `filename.lower().endswith(".xlsx")`. */
  predicate IsXlsxUpload(u: Upload)
    ensures IsXlsxUpload(u) ==> u.filename.Some? && |u.filename.value| >= 5
  {
    EndsWith(Lower(Name(u)), ".xlsx")
  }

  /** The filter of app/routes.py and app.py: `file.filename.endswith('.xlsx')`,
      case-sensitive. */
  predicate LegacyIsXlsx(filename: string) {
    EndsWith(filename, ".xlsx")
  }

  lemma LowerSuffix(s: string, t: string)
    requires EndsWith(s, t) && Lower(t) == t
    ensures EndsWith(Lower(s), t)
  {
    assert Lower(s)[|s| - |t|..] == Lower(s[|s| - |t|..]);
  }

  lemma LowerXlsx(t: string)
    requires t == ".xlsx"
    ensures Lower(t) == t
  {}

  /** Every name the legacy filter accepts is accepted by the maintained one;
      a name in capitals is accepted only by the maintained one. */
  lemma LegacyFilterStricter(name: string, shouted: string)
    requires shouted == "A.XLSX"
    ensures LegacyIsXlsx(name) ==> IsXlsxUpload(Upload(Some(name), None))
    ensures IsXlsxUpload(Upload(Some(shouted), None)) && !LegacyIsXlsx(shouted)
  {
    LowerXlsx(".xlsx");
    if LegacyIsXlsx(name) {
      LowerSuffix(name, ".xlsx");
    }
    assert Lower(shouted) == "a.xlsx";
    assert shouted[1..] != ".xlsx" by {
      assert shouted[2] == 'X';
    }
  }

  /** A missing filename counts as "" and is never parsed. */
  lemma MissingNameSkipped(content: Option<seq<Sheet>>)
    ensures !IsXlsxUpload(Upload(None, content))
  {}

  // ------------------------------------------------ process_uploaded_files

  /** The records a saved file yields: none when it cannot be opened (the
      exception is logged and swallowed). */
  function ParseOutcome(content: Option<seq<Sheet>>, toDatetime: string -> Option<ClockTime>): seq<Schedule> {
    match content
    case None => []
    case Some(book) => ExcelParser.WorkbookRecords(book, toDatetime)
  }

  /** `file_paths` after the first loop: the secured name of every accepted
      upload, in order. */
  function SavedPaths(uploads: seq<Upload>, secure: string -> string): seq<string>
    decreases |uploads|
  {
    if uploads == [] then []
    else
      var u := uploads[|uploads| - 1];
      SavedPaths(uploads[..|uploads| - 1], secure) + (if IsXlsxUpload(u) then [secure(Name(u))] else [])
  }

  /** The upload folder after the first loop: `file.save` writes each
      accepted upload under its secured name, overwriting. */
  function UploadFolder(uploads: seq<Upload>, secure: string -> string): map<string, Option<seq<Sheet>>>
    decreases |uploads|
  {
    if uploads == [] then map[]
    else
      var u := uploads[|uploads| - 1];
      var folder := UploadFolder(uploads[..|uploads| - 1], secure);
      if IsXlsxUpload(u) then folder[secure(Name(u)) := u.book] else folder
  }

  /** The records parsed from the files at `paths`. */
  function RecordsOfPaths(paths: seq<string>, folder: map<string, Option<seq<Sheet>>>, toDatetime: string -> Option<ClockTime>): seq<Schedule>
    decreases |paths|
  {
    if paths == [] then []
    else
      var p := paths[|paths| - 1];
      RecordsOfPaths(paths[..|paths| - 1], folder, toDatetime) + (if p in folder then ParseOutcome(folder[p], toDatetime) else [])
  }

  /** What `process_uploaded_files` returns, taking the files in submission
      order. */
  function ServiceRecords(uploads: seq<Upload>, secure: string -> string, toDatetime: string -> Option<ClockTime>): seq<Schedule> {
    RecordsOfPaths(SavedPaths(uploads, secure), UploadFolder(uploads, secure), toDatetime)
  }

  /** The evidently intended result: the records of each accepted upload's
      own content, in submission order. */
  function ParseEachUpload(uploads: seq<Upload>, toDatetime: string -> Option<ClockTime>): seq<Schedule> {
    ConcatMap(uploads, UploadParser(toDatetime))
  }

  function UploadParser(toDatetime: string -> Option<ClockTime>): Upload -> seq<Schedule> {
    u => UploadRecords(u, toDatetime)
  }

  /** The records one upload contributes: its content's when it is accepted,
      none otherwise. */
  function UploadRecords(u: Upload, toDatetime: string -> Option<ClockTime>): seq<Schedule> {
    if IsXlsxUpload(u) then ParseOutcome(u.book, toDatetime) else []
  }

  /** `process_uploaded_files`: save every accepted upload, then parse each
      saved path. */
  method ProcessUploadedFiles(uploads: seq<Upload>, secure: string -> string, toDatetime: string -> Option<ClockTime>)
    returns (allSchedules: seq<Schedule>)
    ensures allSchedules == ServiceRecords(uploads, secure, toDatetime)
  {
    var filePaths: seq<string> := [];
    var folder: map<string, Option<seq<Sheet>>> := map[];
    var i := 0;
    while i < |uploads|
      invariant i <= |uploads|
      invariant filePaths == SavedPaths(uploads[..i], secure)
      invariant folder == UploadFolder(uploads[..i], secure)
    {
      SaveStep(uploads, secure, i);
      var u := uploads[i];
      var filename := u.filename.GetOr("");
      if EndsWith(Lower(filename), ".xlsx") {
        var safeName := secure(filename);
        folder := folder[safeName := u.book];
        filePaths := filePaths + [safeName];
      }
      i := i + 1;
    }
    assert uploads[..i] == uploads;
    allSchedules := [];
    var j := 0;
    while j < |filePaths|
      invariant j <= |filePaths|
      invariant allSchedules == RecordsOfPaths(filePaths[..j], folder, toDatetime)
    {
      ParseStep(filePaths, folder, j, toDatetime);
      var p := filePaths[j];
      if p in folder && folder[p].Some? {
        var schedules := ExcelParser.ParseExcelFile(folder[p].value, toDatetime);
        allSchedules := allSchedules + schedules;
      }
      j := j + 1;
    }
    assert filePaths[..j] == filePaths;
  }

  /** Saving one more upload. */
  lemma SaveStep(uploads: seq<Upload>, secure: string -> string, i: nat)
    requires i < |uploads|
    ensures SavedPaths(uploads[..i + 1], secure) ==
      SavedPaths(uploads[..i], secure) + (if IsXlsxUpload(uploads[i]) then [secure(Name(uploads[i]))] else [])
    ensures UploadFolder(uploads[..i + 1], secure) ==
      if IsXlsxUpload(uploads[i]) then UploadFolder(uploads[..i], secure)[secure(Name(uploads[i])) := uploads[i].book]
      else UploadFolder(uploads[..i], secure)
  {
    assert uploads[..i + 1][..i] == uploads[..i];
  }

  /** Parsing one more saved path. */
  lemma ParseStep(paths: seq<string>, folder: map<string, Option<seq<Sheet>>>, j: nat, toDatetime: string -> Option<ClockTime>)
    requires j < |paths|
    ensures RecordsOfPaths(paths[..j + 1], folder, toDatetime) ==
      RecordsOfPaths(paths[..j], folder, toDatetime) + (if paths[j] in folder then ParseOutcome(folder[paths[j]], toDatetime) else [])
  {
    assert paths[..j + 1][..j] == paths[..j];
  }

  /** A name that no accepted upload is secured to is not a saved path. */
  lemma {:induction false} SavedPathsAvoid(uploads: seq<Upload>, secure: string -> string, q: string)
    requires forall k :: 0 <= k < |uploads| && IsXlsxUpload(uploads[k]) ==> secure(Name(uploads[k])) != q
    ensures q !in SavedPaths(uploads, secure)
    decreases |uploads|
  {
    if uploads != [] {
      var init := uploads[..|uploads| - 1];
      assert forall k :: 0 <= k < |init| ==> init[k] == uploads[k];
      SavedPathsAvoid(init, secure, q);
    }
  }

  /** The files at `paths` yield the same records in a folder that differs
      only at a name not among them. */
  lemma {:induction false} RecordsOfPathsUpdate(paths: seq<string>, folder: map<string, Option<seq<Sheet>>>,
                                               q: string, c: Option<seq<Sheet>>, toDatetime: string -> Option<ClockTime>)
    requires q !in paths
    ensures RecordsOfPaths(paths, folder[q := c], toDatetime) == RecordsOfPaths(paths, folder, toDatetime)
    decreases |paths|
  {
    if paths != [] {
      RecordsOfPathsUpdate(paths[..|paths| - 1], folder, q, c, toDatetime);
    }
  }

  /** Uploads whose accepted names stay distinct after `secure_filename`. */
  predicate DistinctSecuredNames(uploads: seq<Upload>, secure: string -> string) {
    forall a, b :: 0 <= a < b < |uploads| && IsXlsxUpload(uploads[a]) && IsXlsxUpload(uploads[b]) ==>
      secure(Name(uploads[a])) != secure(Name(uploads[b]))
  }

  /** When no two accepted uploads share a secured name, each upload's
      records appear once, from its own content. */
  lemma {:induction false} DistinctNamesParseEachUpload(uploads: seq<Upload>, secure: string -> string, toDatetime: string -> Option<ClockTime>)
    requires DistinctSecuredNames(uploads, secure)
    ensures ServiceRecords(uploads, secure, toDatetime) == ParseEachUpload(uploads, toDatetime)
    decreases |uploads|
  {
    if uploads != [] {
      var init := uploads[..|uploads| - 1];
      var u := uploads[|uploads| - 1];
      assert DistinctSecuredNames(init, secure) by {
        forall a, b | 0 <= a < b < |init| && IsXlsxUpload(init[a]) && IsXlsxUpload(init[b])
          ensures secure(Name(init[a])) != secure(Name(init[b]))
        {
          assert init[a] == uploads[a] && init[b] == uploads[b];
        }
      }
      DistinctNamesParseEachUpload(init, secure, toDatetime);
      if IsXlsxUpload(u) {
        var q := secure(Name(u));
        var paths := SavedPaths(init, secure);
        var folder := UploadFolder(init, secure);
        forall k | 0 <= k < |init| && IsXlsxUpload(init[k]) ensures secure(Name(init[k])) != q {
          assert init[k] == uploads[k];
        }
        SavedPathsAvoid(init, secure, q);
        assert SavedPaths(uploads, secure) == paths + [q];
        assert UploadFolder(uploads, secure) == folder[q := u.book];
        RecordsOfPathsUpdate(paths, folder, q, u.book, toDatetime);
        assert (paths + [q])[..|paths|] == paths;
      } else {
        assert SavedPaths(uploads, secure) == SavedPaths(init, secure);
        assert UploadFolder(uploads, secure) == UploadFolder(init, secure);
      }
    }
  }

  /** Parsing uploads one batch after another gives the records of the
      first batch followed by those of the second. */
  lemma ParseEachUploadAppend(first: seq<Upload>, second: seq<Upload>, toDatetime: string -> Option<ClockTime>)
    ensures ParseEachUpload(first + second, toDatetime) == ParseEachUpload(first, toDatetime) + ParseEachUpload(second, toDatetime)
  {
    ConcatMapAppend(first, second, UploadParser(toDatetime));
  }

  /** `process_uploaded_files` with each accepted upload parsed from its own
      content rather than from a path that a later upload may overwrite. */
  method ProcessUploadsIndividually(uploads: seq<Upload>, toDatetime: string -> Option<ClockTime>)
    returns (allSchedules: seq<Schedule>)
    ensures allSchedules == ParseEachUpload(uploads, toDatetime)
  {
    allSchedules := [];
    var i := 0;
    while i < |uploads|
      invariant i <= |uploads|
      invariant allSchedules == ParseEachUpload(uploads[..i], toDatetime)
    {
      assert uploads[..i + 1][..i] == uploads[..i];
      var u := uploads[i];
      if EndsWith(Lower(u.filename.GetOr("")), ".xlsx") && u.book.Some? {
        var schedules := ExcelParser.ParseExcelFile(u.book.value, toDatetime);
        allSchedules := allSchedules + schedules;
      }
      i := i + 1;
    }
    assert uploads[..i] == uploads;
  }

  /** An accepted upload that cannot be opened contributes nothing, and the
      other uploads' records are still there. */
  lemma UnreadableUploadSkipped(uploads: seq<Upload>, name: Option<string>, toDatetime: string -> Option<ClockTime>)
    ensures ParseEachUpload(uploads + [Upload(name, None)], toDatetime) == ParseEachUpload(uploads, toDatetime)
  {
    assert (uploads + [Upload(name, None)])[..|uploads|] == uploads;
  }

  /** Two accepted uploads whose names `secure_filename` maps to the same
      name: the second overwrites the first on disk, the path is parsed
      twice, and the first upload's records are lost. */
  lemma CollidingUploads(first: Upload, second: Upload, secure: string -> string, toDatetime: string -> Option<ClockTime>)
    requires IsXlsxUpload(first) && IsXlsxUpload(second)
    requires secure(Name(first)) == secure(Name(second))
    ensures ServiceRecords([first, second], secure, toDatetime) ==
      ParseOutcome(second.book, toDatetime) + ParseOutcome(second.book, toDatetime)
    ensures ParseEachUpload([first, second], toDatetime) ==
      ParseOutcome(first.book, toDatetime) + ParseOutcome(second.book, toDatetime)
  {
    var q := secure(Name(first));
    assert [first, second][..1] == [first];
    assert [first][..0] == [];
    assert SavedPaths([first], secure) == [q];
    assert SavedPaths([first, second], secure) == [q, q];
    assert UploadFolder([first], secure) == map[q := first.book];
    var folder := map[q := second.book];
    assert UploadFolder([first, second], secure) == folder;
    var once := ParseOutcome(second.book, toDatetime);
    assert [q, q][..1] == [q];
    assert [q][..0] == [];
    assert RecordsOfPaths([q], folder, toDatetime) == once;
    assert RecordsOfPaths([q, q], folder, toDatetime) == once + once;
    var p1 := ParseOutcome(first.book, toDatetime);
    assert ParseEachUpload([], toDatetime) == [];
    assert [] + p1 == p1;
    assert ParseEachUpload([first], toDatetime) == p1;
  }

  // ------------------------------------------------------- session storage

  datatype LoadError = NotFound | NotASchedule(reason: ConstructError)

  /** What `load_schedules` returns for an id in the given store state. */
  function LoadedSchedules(stored: Result<seq<Dict>, SessionRepo.StoreError>): (r: Result<seq<Schedule>, LoadError>)
    ensures stored.Err? ==> r == Err(NotFound)
    ensures stored.Ok? && FromDicts(stored.value).Ok? ==> r == Ok(FromDicts(stored.value).value)
    ensures stored.Ok? && FromDicts(stored.value).Err? ==> r == Err(NotASchedule(FromDicts(stored.value).error))
  {
    match stored
    case Err(_) => Err(NotFound)
    case Ok(data) =>
      match FromDicts(data)
      case Err(e) => Err(NotASchedule(e))
      case Ok(ss) => Ok(ss)
  }

  /** Loading what `save_schedules` stored gives the schedules back. */
  lemma SavedSchedulesLoad(schedules: seq<Schedule>)
    ensures LoadedSchedules(Ok(ToDicts(schedules))) == Ok(schedules)
  {
    FromToDicts(schedules);
  }

  /** `load_schedules`. */
  method LoadSchedules(store: SessionRepo.SessionStore<seq<Dict>>, dataId: string) returns (r: Result<seq<Schedule>, LoadError>)
    ensures r == LoadedSchedules(store.Lookup(dataId))
  {
    var data := store.LoadData(dataId);
    if data.Err? {
      return Err(NotFound);
    }
    var parsed := FromDicts(data.value);
    if parsed.Err? {
      return Err(NotASchedule(parsed.error));
    }
    r := Ok(parsed.value);
  }

  /** Python's truthiness of an optional id: present and not empty. */
  predicate Truthy(dataId: Option<string>) {
    dataId.Some? && dataId.value != ""
  }

  /** `save_schedules`: with a truthy id, overwrite that entry and return the
      id; otherwise create an entry under the fresh id and return it. Either
      way, loading the returned id gives the schedules back. */
  method SaveSchedules(store: SessionRepo.SessionStore<seq<Dict>>, schedules: seq<Schedule>, dataId: Option<string>, freshId: string, now: int)
    returns (r: Result<string, SessionRepo.StoreError>)
    requires store.Valid()
    requires !Truthy(dataId) ==> SessionRepo.FileName(freshId) !in store.files
    modifies store
    ensures store.Valid()
    ensures Truthy(dataId) ==> (r.Ok? <==> old(store.folderExists))
    ensures Truthy(dataId) && r.Ok? ==> r.value == dataId.value
    ensures !Truthy(dataId) ==> r == Ok(freshId) && SessionRepo.FileName(freshId) !in old(store.files)
    ensures r.Ok? ==> LoadedSchedules(store.Lookup(r.value)) == Ok(schedules)
    ensures r.Ok? ==> forall other :: other != r.value ==> store.Lookup(other) == old(store.Lookup(other))
    ensures r.Err? ==> store.files == old(store.files)
  {
    var data := ToDicts(schedules);
    SavedSchedulesLoad(schedules);
    if Truthy(dataId) {
      var updated := store.UpdateData(dataId.value, data, now);
      if updated.Err? {
        return Err(updated.error);
      }
      return Ok(dataId.value);
    }
    var id := store.SaveData(data, freshId, now);
    return Ok(id);
  }

  /** `delete_session_data`: the store's delete. */
  method DeleteSessionData(store: SessionRepo.SessionStore<seq<Dict>>, dataId: string)
    requires store.Valid()
    modifies store
    ensures store.Valid() && store.folderExists == old(store.folderExists)
    ensures store.files == old(store.files) - {SessionRepo.FileName(dataId)}
    ensures LoadedSchedules(store.Lookup(dataId)) == Err(NotFound)
  {
    store.DeleteData(dataId);
  }
}
