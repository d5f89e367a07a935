/** The image helper of the backend: storing an uploaded file under
    `images/` with a timestamp-prefixed name and creating its `images` row. */
module ImageStore {
  import opened Wrappers
  import Text

  type ImageId = nat

  /** A row of the `images` table. */
  datatype Image = Image(id: ImageId, filename: string, path: string, url: string)

  /** An uploaded file as the request presents it: the name the client sent,
      its size in bytes and its MIME type. The bytes themselves are not modelled. */
  datatype Upload = Upload(clientName: string, sizeBytes: nat, mimeType: string)

  /** The `images` table together with its autoincrement counter. */
  datatype ImageTable = ImageTable(rows: map<ImageId, Image>, nextId: ImageId)

  /** Every row is stored under its own id, and every id is below the counter. */
  predicate Valid(table: ImageTable)
  {
    forall k :: k in table.rows ==> k < table.nextId && table.rows[k].id == k
  }

  const Directory: string := "images/"
  const PublicPrefix: string := "storage/"

  /** The stored name: the upload time in whole seconds, an underscore, and
      the client's file name. */
  function StoredFilename(timestamp: nat, clientName: string): string
  {
    Text.FromNat(timestamp) + "_" + clientName
  }

  /** Where the public disk keeps a stored file. */
  function StoredPath(filename: string): string
  {
    Directory + filename
  }

  /** The public URL of a stored path, below the application's asset root. */
  function PublicUrl(assetRoot: string, path: string): string
  {
    assetRoot + PublicPrefix + path
  }

  /** Recovers the timestamp and the client name from a stored file name. */
  function ParseStoredFilename(f: string): Option<(nat, string)>
  {
    match Text.IndexOf(f, '_')
    case None => None
    case Some(k) =>
      if k > 0 && Text.AllDigits(f[..k]) then Some((Text.ToNat(f[..k]), f[k + 1..])) else None
  }

  /** The stored file name determines both the timestamp and the client's name. */
  lemma ParseStoredFilenameInverts(timestamp: nat, clientName: string)
    ensures ParseStoredFilename(StoredFilename(timestamp, clientName)) == Some((timestamp, clientName))
  {
    var d := Text.FromNat(timestamp);
    var f := StoredFilename(timestamp, clientName);
    assert f == d + ("_" + clientName);
    Text.IndexOfAfterPrefix(d, "_" + clientName, '_');
    assert f[..|d|] == d;
    assert f[|d| + 1..] == clientName;
    Text.ToNatFromNat(timestamp);
  }

  /** Two uploads land on the same path exactly when they happen in the same
      second and carry the same client name: the prefix reduces collisions
      but does not prevent them. */
  lemma StoredPathCollision(t1: nat, n1: string, t2: nat, n2: string)
    ensures StoredPath(StoredFilename(t1, n1)) == StoredPath(StoredFilename(t2, n2))
        <==> t1 == t2 && n1 == n2
  {
    var p1 := StoredPath(StoredFilename(t1, n1));
    var p2 := StoredPath(StoredFilename(t2, n2));
    if p1 == p2 {
      assert StoredFilename(t1, n1) == p1[|Directory|..];
      assert StoredFilename(t2, n2) == p2[|Directory|..];
      ParseStoredFilenameInverts(t1, n1);
      ParseStoredFilenameInverts(t2, n2);
    }
  }

  /** The outcome of storing an upload: the updated table, the updated set
      of paths on the public disk, and the row that was created. */
  datatype Saved = Saved(table: ImageTable, files: set<string>, image: Image)

  /** Writes the upload to the public disk and creates its row. The clock
      (`timestamp`) and the asset root are parameters. */
  function SaveFileToDisk(table: ImageTable, files: set<string>, assetRoot: string,
                          timestamp: nat, upload: Upload): (r: Saved)
    requires Valid(table)
    ensures Valid(r.table)
    ensures r.image.id !in table.rows && r.image.id in r.table.rows
    ensures r.table.rows == table.rows[r.image.id := r.image]
    ensures r.image.filename == StoredFilename(timestamp, upload.clientName)
    ensures ParseStoredFilename(r.image.filename) == Some((timestamp, upload.clientName))
    ensures r.image.path == Directory + r.image.filename
    ensures r.image.url == assetRoot + PublicPrefix + r.image.path
    ensures r.files == files + {r.image.path}
  {
    ParseStoredFilenameInverts(timestamp, upload.clientName);
    var filename := StoredFilename(timestamp, upload.clientName);
    var path := StoredPath(filename);
    var image := Image(table.nextId, filename, path, PublicUrl(assetRoot, path));
    Saved(ImageTable(table.rows[image.id := image], table.nextId + 1), files + {path}, image)
  }

  /** Removes a stored file if it is there; a missing file is not an error. */
  function DeleteFileIfExists(files: set<string>, path: string): (r: set<string>)
    ensures path !in r
    ensures r + {path} == files + {path}
  {
    if path in files then files - {path} else files
  }
}
