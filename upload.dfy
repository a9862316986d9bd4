/**
 * The size guard of the upload flow (`onFileSelect`): a chosen file larger
 * than 5 MiB is refused before anything reads it; otherwise its contents
 * are read into a preview, with the caption cleared.
 */
module Upload {

  /** `5 * 1024 * 1024` bytes. */
  const MaxFileSize: nat := 5 * 1024 * 1024

  /** The part of a browser `File` the flow looks at; `size` is in bytes. */
  datatype File = File(name: string, mimeType: string, size: nat)

  /**
   * What selecting files leads to: nothing (no file chosen), the
   * "File too large (Max 5MB)" alert, or a read of the file's contents.
   */
  datatype Selection = NoFile | TooLarge(file: File) | StartRead(file: File)

  /** `file.size > 5 * 1024 * 1024`. */
  predicate TooBig(f: File) {
    f.size > 5 * 1024 * 1024
  }

  /**
   * `onFileSelect`: only the first chosen file is considered; a read starts
   * exactly when that file is within the limit.
   */
  function OnFileSelect(files: seq<File>): (s: Selection)
    ensures s.NoFile? <==> files == []
    ensures s.StartRead? <==> files != [] && files[0].size <= MaxFileSize
    ensures !s.NoFile? ==> s.file == files[0]
  {
    if files == [] then NoFile
    else if TooBig(files[0]) then TooLarge(files[0])
    else StartRead(files[0])
  }

  /** The limit is inclusive: a file of exactly 5 MiB is read, one byte more is refused. */
  lemma LimitIsInclusive(name: string, mimeType: string)
    ensures OnFileSelect([File(name, mimeType, 5242880)]).StartRead?
    ensures OnFileSelect([File(name, mimeType, 5242881)]).TooLarge?
  {
  }

  /** A 6 MiB file is refused, so it never reaches the reader or the upload request. */
  lemma SixMiBRefused(f: File)
    requires f.size == 6 * 1024 * 1024
    ensures OnFileSelect([f]) == TooLarge(f)
  {
  }

  /** Acceptance is monotone in size: a file no larger than an accepted one is accepted too. */
  lemma SmallerStillAccepted(f: File, g: File, rest: seq<File>)
    requires OnFileSelect([f] + rest).StartRead? && g.size <= f.size
    ensures OnFileSelect([g] + rest) == StartRead(g)
  {
  }
}
