/** backupToFile: copying the member's backup stream into a fresh dated file. */
module Capture {
  import opened Wrappers
  import opened World
  import opened Naming
  import opened Storage

  /** Some read of the stream fails; a closed connection is reported as io.EOF. */
  predicate Ends(stream: seq<Read>)
  {
    exists k :: 0 <= k < |stream| && stream[k].err.Some?
  }

  /** What `conn.Read(rwBuf)` can return: at most a buffer's worth per read, and a
      failing read eventually. */
  predicate WellFormed(stream: seq<Read>, bufSize: nat)
  {
    bufSize > 0 && Ends(stream) && forall i :: 0 <= i < |stream| ==> |stream[i].data| <= bufSize
  }

  /** The index of the first failing read at or after i. */
  function FirstFailure(stream: seq<Read>, i: nat): (k: nat)
    requires exists k :: i <= k < |stream| && stream[k].err.Some?
    ensures i <= k < |stream| && stream[k].err.Some?
    ensures forall j :: i <= j < k ==> stream[j].err.None?
    decreases |stream| - i
  {
    if stream[i].err.Some? then i else FirstFailure(stream, i + 1)
  }

  /** The index of the read that ends the copy loop. */
  function EndIndex(stream: seq<Read>): (k: nat)
    requires Ends(stream)
    ensures k < |stream| && stream[k].err.Some?
    ensures forall j :: 0 <= j < k ==> stream[j].err.None?
  {
    FirstFailure(stream, 0)
  }

  /** The bytes of the successful reads from index i up to the first failing one, in order. */
  function DeliveredFrom(stream: seq<Read>, i: nat): seq<byte>
    decreases |stream| - i
  {
    if i >= |stream| || stream[i].err.Some? then [] else stream[i].data + DeliveredFrom(stream, i + 1)
  }

  /** The bytes of every read that succeeded before the first failing one, in order. */
  function Delivered(stream: seq<Read>): seq<byte>
  {
    DeliveredFrom(stream, 0)
  }

  /** A run of successful reads delivers exactly their bytes, concatenated. */
  lemma {:induction false} DeliveredAppend(stream: seq<Read>, r: Read, i: nat)
    requires i <= |stream|
    requires forall j :: i <= j < |stream| ==> stream[j].err.None?
    requires r.err.None?
    ensures DeliveredFrom(stream + [r], i) == DeliveredFrom(stream, i) + r.data
    decreases |stream| - i
  {
    var longer := stream + [r];
    if i == |stream| {
      assert DeliveredFrom(longer, i + 1) == [];
      assert DeliveredFrom(longer, i) == r.data + [];
    } else {
      assert longer[i] == stream[i];
      DeliveredAppend(stream, r, i + 1);
    }
  }

  /** Bytes of a failing read, and of everything read after it, are never written. */
  lemma {:induction false} FailedReadDiscarded(before: seq<Read>, r: Read, after: seq<Read>, i: nat)
    requires i <= |before|
    requires forall j :: i <= j < |before| ==> before[j].err.None?
    requires r.err.Some?
    ensures DeliveredFrom(before + [r] + after, i) == DeliveredFrom(before, i)
    decreases |before| - i
  {
    var whole := before + [r] + after;
    if i == |before| {
      assert whole[i] == r;
    } else {
      assert whole[i] == before[i];
      FailedReadDiscarded(before, r, after, i + 1);
    }
  }

  /** What ends up in the file when the device accepts `room` more bytes: the
      delivered bytes, cut at the point where the device filled up. */
  function Copied(stream: seq<Read>, room: nat): (written: seq<byte>)
    ensures |written| <= room
    ensures written <= Delivered(stream)
    ensures |Delivered(stream)| <= room ==> written == Delivered(stream)
    ensures |Delivered(stream)| > room ==> |written| == room
  {
    var d := Delivered(stream);
    if |d| <= room then d else d[..room]
  }

  /** The error the copy loop returns: the failing read's own error when every
      write fit, otherwise the short write's. */
  function CopyStatus(stream: seq<Read>, room: nat, path: string): string
    requires Ends(stream)
  {
    if |Delivered(stream)| <= room then stream[EndIndex(stream)].err.value else WriteError(path)
  }

  /** A second update of the same key replaces the first. */
  lemma UpdateTwice(m: map<string, seq<byte>>, k: string, a: seq<byte>, b: seq<byte>)
    ensures m[k := a][k := b] == m[k := b]
  {
  }

  /** The loop reached the failing read with every write fitting: the file holds
      all delivered bytes and the read's error is the result. */
  lemma ReachedEnd(stream: seq<Read>, room: nat, path: string, written: seq<byte>, i: nat)
    requires Ends(stream) && i <= EndIndex(stream) && stream[i].err.Some?
    requires Delivered(stream) == written + DeliveredFrom(stream, i)
    requires |written| <= room
    ensures Copied(stream, room) == written
    ensures CopyStatus(stream, room, path) == stream[i].err.value
  {
    assert DeliveredFrom(stream, i) == [];
  }

  /** A write cut short after n of data's bytes leaves exactly the first room
      delivered bytes in the file, and the short write's error is the result. */
  lemma ShortWrite(stream: seq<Read>, room: nat, path: string, written: seq<byte>, data: seq<byte>, rest: seq<byte>, n: nat)
    requires Ends(stream)
    requires Delivered(stream) == written + data + rest
    requires n < |data| && |written| + n == room
    ensures Copied(stream, room) == written + data[..n]
    ensures CopyStatus(stream, room, path) == WriteError(path)
  {
    var d := Delivered(stream);
    assert d == written + (data[..n] + (data[n..] + rest));
    assert d[..room] == written + data[..n];
  }

  /** The read/write loop of server.go lines 160-173. */
  method CopyStream(disk: Disk, path: string, stream: seq<Read>, bufSize: nat)
    returns (length: nat, err: Option<string>)
    requires path in disk.files
    requires WellFormed(stream, bufSize)
    modifies disk
    ensures disk.files == old(disk.files)[path := old(disk.files[path]) + Copied(stream, old(disk.room))]
    ensures length == |Copied(stream, old(disk.room))|
    ensures disk.room == old(disk.room) - length
    ensures err == Some(CopyStatus(stream, old(disk.room), path))
  {
    ghost var before, room := disk.files, disk.room;
    ghost var start := before[path];
    ghost var written: seq<byte> := [];
    length := 0;
    var i := 0;
    assert start + written == start;
    assert before[path := start + written] == before;
    while stream[i].err.None?
      invariant i <= EndIndex(stream)
      invariant Delivered(stream) == written + DeliveredFrom(stream, i)
      invariant disk.files == before[path := start + written]
      invariant length == |written| && disk.room == room - length
      decreases |stream| - i
    {
      var data := stream[i].data;
      var n, werr := disk.Write(path, data);
      assert (start + written) + data[..n] == start + (written + data[..n]);
      UpdateTwice(before, path, start + written, start + (written + data[..n]));
      if werr.Some? {
        ShortWrite(stream, room, path, written, data, DeliveredFrom(stream, i + 1), n);
        length, written := length + n, written + data[..n];
        return length, werr;
      }
      assert data[..n] == data;
      assert Delivered(stream) == (written + data) + DeliveredFrom(stream, i + 1);
      length, written := length + n, written + data;
      i := i + 1;
    }
    ReachedEnd(stream, room, path, written, i);
    err := stream[i].err;
  }

  /** What backupToFile returns: `(file, length, err)`. */
  datatype Outcome = Outcome(file: string, length: nat, err: Option<string>)

  /** Free room once the target file has been created (truncation frees its bytes). */
  function RoomAfterCreate(room: nat, files: map<string, seq<byte>>, path: string): nat
  {
    room + if path in files then |files[path]| else 0
  }

  /** backupToFile's result for given inputs and disk state. Every exit carries a
      non-nil error; a failed dial or mkdir returns no file name and length 0. */
  function Expected(env: Env, httpDir: string, from: string, cluster: string,
                    room: nat, files: map<string, seq<byte>>): (r: Outcome)
    requires Valid(env.now) && Ends(env.stream)
    ensures r.err.Some?
    ensures env.dial(from).Some? ==> r == Outcome("", 0, env.dial(from))
    ensures r.file != "" ==> r.file == BackupPath(httpDir, cluster, env.now)
    ensures r.file == "" ==> r.length == 0
    ensures r.length > 0 ==> r.length == |Delivered(env.stream)| || r.err == Some(WriteError(r.file))
  {
    var dir := BackupDir(httpDir, cluster);
    var path := BackupPath(httpDir, cluster, env.now);
    if env.dial(from).Some? then Outcome("", 0, env.dial(from))
    else if env.mkdir(dir).Some? then Outcome("", 0, env.mkdir(dir))
    else if env.open(path).Some? then Outcome(path, 0, env.open(path))
    else
      var room := RoomAfterCreate(room, files, path);
      Outcome(path, |Copied(env.stream, room)|, Some(CopyStatus(env.stream, room, path)))
  }

  /** backupToFile (server.go lines 131-175): dial, create the directory and the
      dated file, then copy the stream into it. */
  method BackupToFile(disk: Disk, env: Env, httpDir: string, bufSize: nat, from: string, cluster: string)
    returns (file: string, length: nat, err: Option<string>)
    requires Valid(env.now) && WellFormed(env.stream, bufSize)
    modifies disk
    ensures Outcome(file, length, err) == Expected(env, httpDir, from, cluster, old(disk.room), old(disk.files))
    ensures var path := BackupPath(httpDir, cluster, env.now);
      if env.dial(from).None? && env.mkdir(BackupDir(httpDir, cluster)).None? && env.open(path).None?
      then disk.files == old(disk.files)[path := Copied(env.stream, RoomAfterCreate(old(disk.room), old(disk.files), path))]
        && disk.room == RoomAfterCreate(old(disk.room), old(disk.files), path) - length
      else disk.files == old(disk.files) && disk.room == old(disk.room)
  {
    file, length := "", 0;
    err := env.dial(from);
    if err.Some? {
      return;
    }
    var backupDir := BackupDir(httpDir, cluster);
    err := env.mkdir(backupDir);
    if err.Some? {
      return;
    }
    file := BackupPath(httpDir, cluster, env.now);
    err := env.open(file);
    if err.Some? {
      return;
    }
    ghost var room := RoomAfterCreate(disk.room, disk.files, file);
    ghost var copied := Copied(env.stream, room);
    disk.Create(file);
    ghost var created := disk.files;
    length, err := CopyStream(disk, file, env.stream, bufSize);
    assert created[file] + copied == copied;
    UpdateTwice(old(disk.files), file, [], copied);
  }
}
