/** The older temporary store of app/utils/temporary.py: the same
    `<id>.json` files in the temp folder, without modification times or a
    sweep. */
module Temporary {
  import opened Wrappers
  import SessionRepo

  class TempStore<T> {
    /** Whether the temp folder exists. */
    var folderExists: bool
    /** The files of the temp folder. */
    var files: map<string, T>

    ghost predicate Valid()
      reads this
    {
      !folderExists ==> files == map[]
    }

    /** What `load_temporary_data` returns for an id. */
    function Stored(fileId: string): (r: Result<T, SessionRepo.StoreError>)
      reads this
      ensures r.Ok? <==> folderExists && SessionRepo.FileName(fileId) in files
    {
      var name := SessionRepo.FileName(fileId);
      if folderExists && name in files then Ok(files[name]) else Err(SessionRepo.FileNotFound)
    }

    constructor(folderExists: bool)
      ensures this.folderExists == folderExists && files == map[]
      ensures Valid()
    {
      this.folderExists := folderExists;
      files := map[];
    }

    /** `save_temporary_data`: creates the folder when it is missing, writes
        the data under the new id and returns the id. */
    method SaveTemporaryData(data: T, fileId: string) returns (id: string)
      requires Valid()
      requires SessionRepo.FileName(fileId) !in files
      modifies this
      ensures Valid() && folderExists
      ensures id == fileId && SessionRepo.FileName(id) !in old(files)
      ensures files == old(files)[SessionRepo.FileName(fileId) := data]
      ensures Stored(id) == Ok(data)
      ensures forall other :: other != fileId ==> Stored(other) == old(Stored(other))
    {
      if !folderExists {
        folderExists := true;
      }
      files := files[SessionRepo.FileName(fileId) := data];
      id := fileId;
      forall other | other != fileId ensures Stored(other) == old(Stored(other)) {
        SessionRepo.FileNameInjective(other, fileId);
      }
    }

    /** `load_temporary_data`: what was last stored, or FileNotFoundError. */
    method LoadTemporaryData(fileId: string) returns (r: Result<T, SessionRepo.StoreError>)
      ensures r == Stored(fileId)
      ensures r.Err? <==> !folderExists || SessionRepo.FileName(fileId) !in files
    {
      var name := SessionRepo.FileName(fileId);
      if folderExists && name in files {
        r := Ok(files[name]);
      } else {
        r := Err(SessionRepo.FileNotFound);
      }
    }

    /** `update_temporary_data`: overwrites (or creates) the file; fails when
        the folder does not exist. */
    method UpdateTemporaryData(fileId: string, data: T) returns (r: Result<(), SessionRepo.StoreError>)
      requires Valid()
      modifies this
      ensures Valid() && folderExists == old(folderExists)
      ensures r.Ok? <==> folderExists
      ensures r.Ok? ==> files == old(files)[SessionRepo.FileName(fileId) := data] && Stored(fileId) == Ok(data)
      ensures r.Err? ==> files == old(files)
      ensures forall other :: other != fileId ==> Stored(other) == old(Stored(other))
    {
      if !folderExists {
        return Err(SessionRepo.FileNotFound);
      }
      files := files[SessionRepo.FileName(fileId) := data];
      r := Ok(());
      forall other | other != fileId ensures Stored(other) == old(Stored(other)) {
        SessionRepo.FileNameInjective(other, fileId);
      }
    }

    /** `delete_temporary_data`: removes the file only when it exists, so a
        second delete changes nothing. */
    method DeleteTemporaryData(fileId: string)
      requires Valid()
      modifies this
      ensures Valid() && folderExists == old(folderExists)
      ensures files == old(files) - {SessionRepo.FileName(fileId)}
      ensures SessionRepo.FileName(fileId) !in old(files) ==> files == old(files)
      ensures Stored(fileId).Err?
      ensures forall other :: other != fileId ==> Stored(other) == old(Stored(other))
    {
      var name := SessionRepo.FileName(fileId);
      if name in files {
        files := files - {name};
      }
      forall other | other != fileId ensures Stored(other) == old(Stored(other)) {
        SessionRepo.FileNameInjective(other, fileId);
      }
    }
  }
}
