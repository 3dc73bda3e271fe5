/** The file-backed session store of app/repositories/session_repo.py. The
    session folder is a map from file names to their contents and
    modification times; `now` stands for `time.time()` and the file id for
    `uuid.uuid4()`, both given by the caller. */
module SessionRepo {
  import opened Wrappers
  import opened Strings

  /** A stored file: the JSON payload and its modification time. */
  datatype Entry<T> = Entry(data: T, mtime: int)

  datatype StoreError = FileNotFound

  /** `f"{file_id}.json"`. */
  function FileName(fileId: string): (name: string)
    ensures EndsWith(name, ".json")
  {
    fileId + ".json"
  }

  /** Distinct ids name distinct files. */
  lemma FileNameInjective(a: string, b: string)
    ensures FileName(a) == FileName(b) <==> a == b
  {
    if FileName(a) == FileName(b) {
      assert |a| == |b|;
      assert a == FileName(a)[..|a|];
    }
  }

  /** Whether the sweep at time `now` removes the file `name`. */
  predicate Expired<T>(name: string, e: Entry<T>, maxAge: int, now: int) {
    EndsWith(name, ".json") && now - e.mtime > maxAge
  }

  /** The folder after `remove_expired_sessions`: every `.json` file older
      than `maxAge` is gone, everything else is kept. */
  function Sweep<T>(files: map<string, Entry<T>>, maxAge: int, now: int): map<string, Entry<T>> {
    map name | name in files && !Expired(name, files[name], maxAge, now) :: files[name]
  }

  /** A file survives the sweep exactly when it is not an expired `.json`
      file, and survivors keep their contents. */
  lemma SweepMembers<T>(files: map<string, Entry<T>>, maxAge: int, now: int, name: string)
    ensures name in Sweep(files, maxAge, now) <==> name in files && !Expired(name, files[name], maxAge, now)
    ensures name in Sweep(files, maxAge, now) ==> Sweep(files, maxAge, now)[name] == files[name]
  {}

  /** A second sweep with the same clock removes nothing more. */
  lemma SweepIdempotent<T>(files: map<string, Entry<T>>, maxAge: int, now: int)
    ensures Sweep(Sweep(files, maxAge, now), maxAge, now) == Sweep(files, maxAge, now)
  {
    var once := Sweep(files, maxAge, now);
    assert Sweep(once, maxAge, now).Keys == once.Keys;
  }

  /** A session saved at time `t` is removed by a sweep at `now` exactly when
      it is older than the maximum age. */
  lemma SavedSessionExpires<T>(files: map<string, Entry<T>>, fileId: string, data: T, t: int, maxAge: int, now: int)
    ensures FileName(fileId) in Sweep(files[FileName(fileId) := Entry(data, t)], maxAge, now) <==> now - t <= maxAge
  {}

  class SessionStore<T> {
    /** Whether the session folder exists. */
    var folderExists: bool
    /** The files of the session folder. */
    var files: map<string, Entry<T>>

    /** An absent folder holds no files. */
    ghost predicate Valid()
      reads this
    {
      !folderExists ==> files == map[]
    }

    /** What `load_data` returns for an id. */
    function Lookup(fileId: string): (r: Result<T, StoreError>)
      reads this
      ensures r.Ok? <==> folderExists && FileName(fileId) in files
    {
      if folderExists && FileName(fileId) in files then Ok(files[FileName(fileId)].data) else Err(FileNotFound)
    }

    constructor(folderExists: bool)
      ensures this.folderExists == folderExists && files == map[]
      ensures Valid()
    {
      this.folderExists := folderExists;
      files := map[];
    }

    /** `save_data`: creates the folder if needed and writes the data under
        the new id, which it returns. */
    method SaveData(data: T, fileId: string, now: int) returns (id: string)
      requires Valid()
      requires FileName(fileId) !in files
      modifies this
      ensures Valid() && folderExists
      ensures id == fileId && FileName(id) !in old(files)
      ensures files == old(files)[FileName(fileId) := Entry(data, now)]
      ensures Lookup(id) == Ok(data)
      ensures forall other :: other != fileId ==> Lookup(other) == old(Lookup(other))
    {
      folderExists := true;
      files := files[FileName(fileId) := Entry(data, now)];
      id := fileId;
      forall other | other != fileId ensures Lookup(other) == old(Lookup(other)) {
        FileNameInjective(other, fileId);
      }
    }

    /** `load_data`: the stored data, or FileNotFoundError. */
    method LoadData(fileId: string) returns (r: Result<T, StoreError>)
      ensures r == Lookup(fileId)
      ensures r.Err? <==> !folderExists || FileName(fileId) !in files
    {
      if folderExists && FileName(fileId) in files {
        r := Ok(files[FileName(fileId)].data);
      } else {
        r := Err(FileNotFound);
      }
    }

    /** `update_data`: overwrites or creates the file; opening it for
        writing fails when the folder does not exist. */
    method UpdateData(fileId: string, data: T, now: int) returns (r: Result<(), StoreError>)
      requires Valid()
      modifies this
      ensures Valid() && folderExists == old(folderExists)
      ensures r.Ok? <==> folderExists
      ensures r.Ok? ==> files == old(files)[FileName(fileId) := Entry(data, now)] && Lookup(fileId) == Ok(data)
      ensures r.Err? ==> files == old(files)
      ensures forall other :: other != fileId ==> Lookup(other) == old(Lookup(other))
    {
      if !folderExists {
        return Err(FileNotFound);
      }
      files := files[FileName(fileId) := Entry(data, now)];
      r := Ok(());
      forall other | other != fileId ensures Lookup(other) == old(Lookup(other)) {
        FileNameInjective(other, fileId);
      }
    }

    /** `delete_data`: removes the file if it is there, and never fails. */
    method DeleteData(fileId: string)
      requires Valid()
      modifies this
      ensures Valid() && folderExists == old(folderExists)
      ensures files == old(files) - {FileName(fileId)}
      ensures Lookup(fileId) == Err(FileNotFound)
      ensures forall other :: other != fileId ==> Lookup(other) == old(Lookup(other))
    {
      files := files - {FileName(fileId)};
      forall other | other != fileId ensures Lookup(other) == old(Lookup(other)) {
        FileNameInjective(other, fileId);
      }
    }

    /** `remove_expired_sessions`: one pass over the folder's listing that
        removes every expired `.json` file; a missing folder is left alone. */
    method RemoveExpiredSessions(maxAge: int, now: int)
      requires Valid()
      modifies this
      ensures Valid() && folderExists == old(folderExists)
      ensures files == Sweep(old(files), maxAge, now)
    {
      if !folderExists {
        assert Sweep(files, maxAge, now).Keys == {};
        return;
      }
      var listing := files.Keys;
      ghost var before := files;
      while listing != {}
        invariant folderExists
        invariant listing <= before.Keys
        invariant files.Keys <= before.Keys
        invariant forall name :: name in before && name !in listing ==>
                    (name in files <==> !Expired(name, before[name], maxAge, now))
        invariant forall name :: name in listing ==> name in files
        invariant forall name :: name in files ==> files[name] == before[name]
        decreases listing
      {
        var name :| name in listing;
        listing := listing - {name};
        if !EndsWith(name, ".json") {
          continue;
        }
        var mtime := files[name].mtime;
        if now - mtime > maxAge {
          files := files - {name};
        }
      }
      assert files.Keys == Sweep(before, maxAge, now).Keys;
    }
  }
}
