/** Values and objects shared by the archive exporter and the label store:
    bytes, in-memory upload streams, decoded pictures and image records. */
module Media {

  /** One octet of a file or of an encoded label. */
  newtype byte = x: int | 0 <= x < 256

  datatype Option<T> = None | Some(value: T)

  /** Outcome of a call that may fail with a message, such as the captioner. */
  datatype Result<T, E> = Success(value: T) | Failure(error: E)

  /** An uploaded file as the session holds it: an in-memory byte buffer whose
      content never changes and whose read position moves as it is read. */
  class ByteStream {
    const data: seq<byte>
    var pos: nat

    constructor (data: seq<byte>)
      ensures this.data == data && pos == 0
    {
      this.data := data;
      pos := 0;
    }

    /** Moves the read position to an absolute offset. */
    method Seek(offset: nat)
      modifies this`pos
      ensures pos == offset
    {
      pos := offset;
    }

    /** Reads everything from the current position to the end; a position past
        the end yields nothing and stays where it is. */
    method Read() returns (r: seq<byte>)
      modifies this`pos
      ensures old(pos) <= |data| ==> r == data[old(pos)..] && pos == |data|
      ensures old(pos) > |data| ==> r == [] && pos == old(pos)
    {
      if pos <= |data| {
        r := data[pos..];
        pos := |data|;
      } else {
        r := [];
      }
    }
  }

  /** A decoded picture, kept opaque: the model never looks at pixels. */
  datatype Bitmap = Bitmap(pixels: seq<byte>)

  /** One file handed over by the upload widget: its name and its stream. */
  datatype UploadedFile = UploadedFile(name: string, stream: ByteStream)

  /** One loaded image: its name, its decoded picture and the file it came from. */
  datatype ImageRecord = ImageRecord(name: string, image: Bitmap, file: ByteStream)
}
