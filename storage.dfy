/** The local file system under the backup root, as far as the capture touches it:
    files by path, and how many more bytes the device accepts. */
module Storage {
  import opened Wrappers
  import opened World

  /** The error text of a write cut short by a full device. */
  function WriteError(path: string): string
  {
    "write " + path + ": no space left on device"
  }

  class Disk {
    var files: map<string, seq<byte>>
    var room: nat

    constructor (room: nat)
      ensures files == map[] && this.room == room
    {
      files := map[];
      this.room := room;
    }

    /** A successful `os.OpenFile(path, O_WRONLY|O_CREATE|O_TRUNC, 0644)`: the file
        exists and is empty; truncation gives its old bytes back to the device. */
    method Create(path: string)
      modifies this
      ensures files == old(files)[path := []]
      ensures room == old(room) + if path in old(files) then |old(files)[path]| else 0
    {
      if path in files {
        room := room + |files[path]|;
      }
      files := files[path := []];
    }

    /** `f.Write(data)`: appends as many bytes as the device accepts; a short
        write reports an error, as os.File.Write does. */
    method Write(path: string, data: seq<byte>) returns (n: nat, err: Option<string>)
      requires path in files
      modifies this
      ensures n == if |data| <= old(room) then |data| else old(room)
      ensures files == old(files)[path := old(files)[path] + data[..n]]
      ensures room == old(room) - n
      ensures err == if n == |data| then None else Some(WriteError(path))
    {
      n := if |data| <= room then |data| else room;
      files := files[path := files[path] + data[..n]];
      room := room - n;
      err := if n == |data| then None else Some(WriteError(path));
    }
  }
}
