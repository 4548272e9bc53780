/**
 * What the server uses of archive/zip: a writer that a folder download adds
 * entries to, one header per file, and finally closes (writing the trailer).
 * Entry contents and the byte layout of the archive are not modelled.
 */
module Archive {

  /** The compression method of an entry: zip.Store (none) or zip.Deflate. */
  datatype Compression = Store | Deflate

  datatype ZipEntry = ZipEntry(name: string, compression: Compression)

  /** zip.Writer, seen as the entries written so far and whether Close has run. */
  class ZipWriter {
    var entries: seq<ZipEntry>
    var closed: bool

    constructor ()
      ensures entries == [] && !closed
    {
      entries := [];
      closed := false;
    }

    /** Writer.CreateHeader: adds an entry, or fails once the writer is closed. */
    method CreateHeader(name: string, m: Compression) returns (ok: bool)
      modifies this
      ensures ok == !old(closed) && closed == old(closed)
      ensures entries == if ok then old(entries) + [ZipEntry(name, m)] else old(entries)
    {
      ok := !closed;
      if ok {
        entries := entries + [ZipEntry(name, m)];
      }
    }

    /** Writer.Close: writes the central directory; no entry is added afterwards. */
    method Close()
      modifies this
      ensures closed && entries == old(entries)
    {
      closed := true;
    }
  }
}
