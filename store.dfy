/**
 * The .git/objects directory the object writers and readers use: which
 * two-character subdirectories exist and what each object file holds once
 * decompressed. zlib is not part of this model, so a file's content is kept
 * as the canonical bytes it decompresses to.
 */
module Store {
  import opened Wrappers
  import opened Text

  /** The path of an object under .git/objects: its directory and its file name. */
  type Key = (Bytes, Bytes)

  class ObjectStore {
    /** The subdirectories of .git/objects. */
    var dirs: set<Bytes>
    /** The decompressed content of every object file. */
    var objects: map<Key, Bytes>

    /** Every object file lies in an existing directory. */
    ghost predicate Valid()
      reads this
    {
      forall k :: k in objects ==> k.0 in dirs
    }

    /** The store `init` leaves behind: .git/objects exists and is empty. */
    constructor ()
      ensures Valid() && dirs == {} && objects == map[]
    {
      dirs := {};
      objects := map[];
    }

    /**
     * writeToFile, whose steps createBlobObject and createTreeHash also inline:
     * fs::create_directories returns false when the directory already exists,
     * and the write is then abandoned.
     */
    method WriteToFile(dirNamePart: Bytes, fileNamePart: Bytes, data: Bytes) returns (ok: bool)
      requires Valid()
      modifies this
      ensures Valid()
      ensures ok <==> dirNamePart !in old(dirs)
      ensures ok ==> dirs == old(dirs) + {dirNamePart} && objects == old(objects)[(dirNamePart, fileNamePart) := data]
      ensures !ok ==> dirs == old(dirs) && objects == old(objects)
    {
      if dirNamePart in dirs {
        return false;
      }
      dirs := dirs + {dirNamePart};
      objects := objects[(dirNamePart, fileNamePart) := data];
      return true;
    }

    /** The corrected write: a directory that already exists is used as it is. */
    method WriteObject(dirNamePart: Bytes, fileNamePart: Bytes, data: Bytes)
      requires Valid()
      modifies this
      ensures Valid()
      ensures dirs == old(dirs) + {dirNamePart}
      ensures objects == old(objects)[(dirNamePart, fileNamePart) := data]
    {
      dirs := dirs + {dirNamePart};
      objects := objects[(dirNamePart, fileNamePart) := data];
    }
  }
}
