/** backupForSnapshot: the `/backup.do?cluster=<id>` handler that runs the
    discovery, the target lookup and the capture in sequence. */
module Server {
  import opened Wrappers
  import opened Decimal
  import opened World
  import opened Naming
  import opened Storage
  import opened Locator
  import opened Capture

  /** The settings server.go reads from its environment once at start-up. */
  datatype Config = Config(httpDir: string, discoveryService: string, ncatPort: string, rwBufSize: nat)

  /** The summary line written back after a capture (server.go line 87). */
  function Report(from: string, cluster: string, file: string, state: string, size: nat): (line: string)
    ensures |line| > 12 && line[..12] == "Backup From "
    ensures var tail := ", File Size: " + Digits(size);
      |line| > |tail| && line[|line| - |tail|..] == tail
  {
    var head := "Backup From " + from + " For " + cluster + " To " + file + " Done, Backup State: " + state;
    var line := head + ", File Size: " + Digits(size);
    assert line == "Backup From " + (from + " For " + cluster + " To " + file + " Done, Backup State: " + state + ", File Size: " + Digits(size));
    line
  }

  /** The size written in a report reads back as the byte count. */
  lemma ReportSize(from: string, cluster: string, file: string, state: string, size: nat)
    ensures var line := Report(from, cluster, file, state, size);
      Value(line[|line| - |Digits(size)|..]) == size
  {
    var line := Report(from, cluster, file, state, size);
    var tail := ", File Size: " + Digits(size);
    assert line[|line| - |Digits(size)|..] == tail[|tail| - |Digits(size)|..] == Digits(size);
    ValueOfDigits(size);
  }

  /** backupForSnapshot: either the NoHostMessage, with no capture attempted, or
      the summary of the capture from the located member's capture port. Because
      backupToFile never returns a nil error, `err.Error()` is always defined. */
  method BackupForSnapshot(cfg: Config, env: Env, disk: Disk, cluster: string) returns (output: string)
    requires Valid(env.now) && WellFormed(env.stream, cfg.rwBufSize)
    modifies disk
    ensures var target := Located(env, cfg.discoveryService, cluster);
      target == "" ==> output == NoHostMessage && disk.files == old(disk.files) && disk.room == old(disk.room)
    ensures var target := Located(env, cfg.discoveryService, cluster);
      target != "" ==>
        var c := Expected(env, cfg.httpDir, target + ":" + cfg.ncatPort, cluster, old(disk.room), old(disk.files));
        output == Report(target, cluster, c.file, c.err.value, c.length)
    ensures var target := Located(env, cfg.discoveryService, cluster);
      var path := BackupPath(cfg.httpDir, cluster, env.now);
      target != "" ==>
        if env.dial(target + ":" + cfg.ncatPort).None? && env.mkdir(BackupDir(cfg.httpDir, cluster)).None? && env.open(path).None?
        then disk.files == old(disk.files)[path := Copied(env.stream, RoomAfterCreate(old(disk.room), old(disk.files), path))]
          && disk.room == RoomAfterCreate(old(disk.room), old(disk.files), path) - |Copied(env.stream, RoomAfterCreate(old(disk.room), old(disk.files), path))|
        else disk.files == old(disk.files) && disk.room == old(disk.room)
  {
    var fromServer, err := FindBackupTarget(env, cfg.discoveryService, cluster);
    if err == None {
      var file, length, captureErr := BackupToFile(disk, env, cfg.httpDir, cfg.rwBufSize, fromServer + ":" + cfg.ncatPort, cluster);
      output := Report(fromServer, cluster, file, captureErr.value, length);
    } else {
      output := err.value;
    }
  }
}
