/** Where a capture is stored: `<httpDir>/<cluster>/<YYYY-MM-DD_HH-MM-SS>.xbstream`. */
module Naming {
  import opened Decimal

  /** The local wall-clock fields of the time.Time that stamps a backup. */
  datatype DateTime = DateTime(year: int, month: int, day: int, hour: int, minute: int, second: int)

  /** Field ranges of Go's time.Time accessors (years before 0 are not modelled). */
  predicate Valid(t: DateTime)
  {
    0 <= t.year && 1 <= t.month <= 12 && 1 <= t.day <= 31 &&
    0 <= t.hour < 24 && 0 <= t.minute < 60 && 0 <= t.second < 60
  }

  /** `fmt.Sprintf("%04d-%02d-%02d_%02d-%02d-%02d", ...)` of the six fields. */
  function Stamp(t: DateTime): (s: string)
    requires Valid(t)
    ensures |s| >= 19
  {
    Pad(t.year, 4) + "-" + Pad(t.month, 2) + "-" + Pad(t.day, 2) + "_" +
    Pad(t.hour, 2) + "-" + Pad(t.minute, 2) + "-" + Pad(t.second, 2)
  }

  /** For years 0..9999 every stamp is exactly 19 characters. */
  lemma StampLength(t: DateTime)
    requires Valid(t)
    requires t.year < 10000
    ensures |Stamp(t)| == 19
  {
    PadWidth(t.year, 4);
    PadWidth(t.month, 2);
    PadWidth(t.day, 2);
    PadWidth(t.hour, 2);
    PadWidth(t.minute, 2);
    PadWidth(t.second, 2);
  }

  /** Equal concatenations with equally long right parts have equal parts. */
  lemma Cancel(l1: string, r1: string, l2: string, r2: string)
    requires |r1| == |r2|
    requires l1 + r1 == l2 + r2
    ensures l1 == l2 && r1 == r2
  {
    assert l1 == (l1 + r1)[..|l1|];
    assert r1 == (l1 + r1)[|l1|..];
  }

  /** Padding is one-to-one at a fixed width. */
  lemma PadInjective(n: nat, m: nat, w: nat)
    requires Pad(n, w) == Pad(m, w)
    ensures n == m
  {
    ValueOfPad(n, w);
    ValueOfPad(m, w);
  }

  /** Stamps never collide: distinct wall-clock readings give distinct stamps. */
  lemma StampInjective(t1: DateTime, t2: DateTime)
    requires Valid(t1) && Valid(t2)
    requires t1 != t2
    ensures Stamp(t1) != Stamp(t2)
  {
    if Stamp(t1) == Stamp(t2) {
      var y1, mo1, d1, h1, mi1, s1 := Pad(t1.year, 4), Pad(t1.month, 2), Pad(t1.day, 2), Pad(t1.hour, 2), Pad(t1.minute, 2), Pad(t1.second, 2);
      var y2, mo2, d2, h2, mi2, s2 := Pad(t2.year, 4), Pad(t2.month, 2), Pad(t2.day, 2), Pad(t2.hour, 2), Pad(t2.minute, 2), Pad(t2.second, 2);
      PadWidth(t1.month, 2); PadWidth(t1.day, 2); PadWidth(t1.hour, 2); PadWidth(t1.minute, 2); PadWidth(t1.second, 2);
      PadWidth(t2.month, 2); PadWidth(t2.day, 2); PadWidth(t2.hour, 2); PadWidth(t2.minute, 2); PadWidth(t2.second, 2);
      // Peel the fixed-width fields off the right end, one at a time.
      Cancel(y1 + "-" + mo1 + "-" + d1 + "_" + h1 + "-" + mi1 + "-", s1, y2 + "-" + mo2 + "-" + d2 + "_" + h2 + "-" + mi2 + "-", s2);
      Cancel(y1 + "-" + mo1 + "-" + d1 + "_" + h1 + "-" + mi1, "-", y2 + "-" + mo2 + "-" + d2 + "_" + h2 + "-" + mi2, "-");
      Cancel(y1 + "-" + mo1 + "-" + d1 + "_" + h1 + "-", mi1, y2 + "-" + mo2 + "-" + d2 + "_" + h2 + "-", mi2);
      Cancel(y1 + "-" + mo1 + "-" + d1 + "_" + h1, "-", y2 + "-" + mo2 + "-" + d2 + "_" + h2, "-");
      Cancel(y1 + "-" + mo1 + "-" + d1 + "_", h1, y2 + "-" + mo2 + "-" + d2 + "_", h2);
      Cancel(y1 + "-" + mo1 + "-" + d1, "_", y2 + "-" + mo2 + "-" + d2, "_");
      Cancel(y1 + "-" + mo1 + "-", d1, y2 + "-" + mo2 + "-", d2);
      Cancel(y1 + "-" + mo1, "-", y2 + "-" + mo2, "-");
      Cancel(y1 + "-", mo1, y2 + "-", mo2);
      Cancel(y1, "-", y2, "-");
      PadInjective(t1.year, t2.year, 4);
      PadInjective(t1.month, t2.month, 2);
      PadInjective(t1.day, t2.day, 2);
      PadInjective(t1.hour, t2.hour, 2);
      PadInjective(t1.minute, t2.minute, 2);
      PadInjective(t1.second, t2.second, 2);
    }
  }

  /** `httpDir + "/" + cluster` (server.go line 148). */
  function BackupDir(httpDir: string, cluster: string): string
  {
    httpDir + "/" + cluster
  }

  /** The file a capture started at time t writes to (server.go line 153). */
  function BackupPath(httpDir: string, cluster: string, t: DateTime): (path: string)
    requires Valid(t)
    ensures |path| >= |BackupDir(httpDir, cluster)| + 1 + 19 + 9
    ensures path[..|BackupDir(httpDir, cluster)| + 1] == BackupDir(httpDir, cluster) + "/"
    ensures path[|path| - 9..] == ".xbstream"
  {
    BackupDir(httpDir, cluster) + "/" + Stamp(t) + ".xbstream"
  }

  /** Two captures of one cluster with distinct wall-clock readings never share a file. */
  lemma PathsDistinct(httpDir: string, cluster: string, t1: DateTime, t2: DateTime)
    requires Valid(t1) && Valid(t2)
    requires t1 != t2
    ensures BackupPath(httpDir, cluster, t1) != BackupPath(httpDir, cluster, t2)
  {
    var p1 := BackupPath(httpDir, cluster, t1);
    var p2 := BackupPath(httpDir, cluster, t2);
    var k := |BackupDir(httpDir, cluster)| + 1;
    assert p1[k..|p1| - 9] == Stamp(t1);
    assert p2[k..|p2| - 9] == Stamp(t2);
    StampInjective(t1, t2);
  }
}
