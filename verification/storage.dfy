/** The pieces of the hosting environment both controllers touch: uploaded
    form files, the local disk under the content root, and the text of a
    freshly generated `Guid`. */
module Storage {

  newtype byte = x: int | 0 <= x < 256

  /** The files on disk, by path relative to the content root. */
  type Disk = map<string, seq<byte>>

  /** An uploaded multipart field (`IFormFile`): the client's file name and the
      payload; `Length` is the payload's size. */
  datatype FormFile = FormFile(fileName: string, content: seq<byte>)

  /** Directory holding medical-file payloads. */
  const UploadsDir: string := "uploads"

  /** Directory holding profile images. */
  const ProfileImagesDir: string := "profile-images"

  /** `Path.Combine(dir, name)` for a relative `name` and a `dir` that does not
      end in a separator. */
  function Combine(dir: string, name: string): string {
    dir + "/" + name
  }

  /** `System.IO.File.Delete(path)` guarded by `File.Exists(path)`: a missing
      file is not an error. */
  function DeleteIfExists(disk: Disk, path: string): (d: Disk)
    ensures path !in d
    ensures forall p :: p != path ==> (p in d <==> p in disk)
    ensures forall p :: p in d ==> d[p] == disk[p]
  {
    if path in disk then disk - {path} else disk
  }

  predicate IsHexDigit(c: char) {
    '0' <= c <= '9' || 'a' <= c <= 'f'
  }

  /** The text of `Guid.NewGuid().ToString()`: 32 lower-case hex digits in
      groups 8-4-4-4-12 separated by '-'. */
  predicate IsGuidText(g: string) {
    && |g| == 36
    && forall i :: 0 <= i < 36 ==>
         if i == 8 || i == 13 || i == 18 || i == 23 then g[i] == '-' else IsHexDigit(g[i])
  }

  /** GUID text holds neither '.' nor a directory separator. */
  lemma GuidHasNoDotOrSlash(g: string)
    requires IsGuidText(g)
    ensures forall j :: 0 <= j < |g| ==> g[j] != '.' && g[j] != '/'
  {
  }
}
