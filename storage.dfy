/** The journal directory on disk, as a mutable map from file name to contents. */
module Storage {
  import opened Common

  class Directory {
    /** Every regular file of the directory, by name relative to it. */
    var files: map<string, seq<byte>>

    constructor (files: map<string, seq<byte>>)
      ensures this.files == files
    {
      this.files := files;
    }
  }
}
