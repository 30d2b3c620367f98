/**
 * The library calls the server makes into code outside this model:
 * `ubinascii.a2b_base64`, `ujson.loads` and `ujson.dumps`. Each is a function
 * value passed in; None stands for the call raising.
 */
module Foreign {
  import opened Base

  /** The parts of a JSON value the save handler looks at. */
  datatype Json = JString(text: string) | JObject(fields: map<string, Json>) | JOther

  /** What `get_file_info` returns: `{'name': ..., 'type': 'dir' or 'file', 'size': ...}`. */
  datatype FileInfo = FileInfo(name: string, isDir: bool, size: nat)

  datatype Library = Library(
    a2bBase64: string -> Option<Bytes>,
    loads: Bytes -> Option<Json>,
    dumps: seq<FileInfo> -> string)
}
