/** The pieces of Go's `strings` package the backup trigger relies on, with
    `Join`, the inverse used to state the split round-trip. */
module Text {

  /** strings.Split(s, sep) for a one-character separator: the pieces between
      separators, in order; an empty input gives one empty piece. */
  function Split(s: string, sep: char): (pieces: seq<string>)
    ensures |pieces| >= 1
    decreases |s|
  {
    if s == [] then [""]
    else if s[0] == sep then [""] + Split(s[1..], sep)
    else
      var rest := Split(s[1..], sep);
      [[s[0]] + rest[0]] + rest[1..]
  }

  /** No piece contains the separator. */
  lemma {:induction false} SplitPiecesExcludeSeparator(s: string, sep: char)
    ensures forall i :: 0 <= i < |Split(s, sep)| ==> sep !in Split(s, sep)[i]
    decreases |s|
  {
    if s != [] {
      SplitPiecesExcludeSeparator(s[1..], sep);
      var rest := Split(s[1..], sep);
      if s[0] != sep {
        assert Split(s, sep)[1..] == rest[1..];
        assert sep !in [s[0]] + rest[0];
      }
    }
  }

  /** Joining pieces with a separator: not called by server.go; it is the
      inverse of Split, used to state the split round-trip. */
  function Join(pieces: seq<string>, sep: char): string
    requires |pieces| >= 1
    decreases |pieces|
  {
    if |pieces| == 1 then pieces[0] else pieces[0] + [sep] + Join(pieces[1..], sep)
  }

  /** Splitting loses nothing: the separators sit exactly between the pieces. */
  lemma {:induction false} JoinSplit(s: string, sep: char)
    ensures Join(Split(s, sep), sep) == s
    decreases |s|
  {
    if s == [] {
    } else if s[0] == sep {
      JoinSplit(s[1..], sep);
      assert Split(s, sep)[1..] == Split(s[1..], sep);
    } else {
      var rest := Split(s[1..], sep);
      JoinSplit(s[1..], sep);
      if |rest| == 1 {
        assert Join(Split(s, sep), sep) == [s[0]] + rest[0];
      } else {
        assert Split(s, sep)[1..] == rest[1..];
        assert Join(rest, sep) == rest[0] + [sep] + Join(rest[1..], sep);
      }
    }
  }

  /** Splitting a join of separator-free pieces gives the pieces back. */
  lemma {:induction false} SplitJoin(pieces: seq<string>, sep: char)
    requires |pieces| >= 1
    requires forall i :: 0 <= i < |pieces| ==> sep !in pieces[i]
    ensures Split(Join(pieces, sep), sep) == pieces
    decreases |pieces|, |pieces[0]|
  {
    var head := pieces[0];
    if head == [] {
      if |pieces| > 1 {
        SplitJoin(pieces[1..], sep);
        assert Join(pieces, sep) == [sep] + Join(pieces[1..], sep);
        assert ([sep] + Join(pieces[1..], sep))[1..] == Join(pieces[1..], sep);
      }
    } else {
      var shorter := [head[1..]] + pieces[1..];
      assert forall i :: 1 <= i < |shorter| ==> shorter[i] == pieces[i];
      assert sep !in head[1..] by { assert forall k :: 0 <= k < |head[1..]| ==> head[1..][k] == head[k + 1]; }
      SplitJoin(shorter, sep);
      var s := Join(pieces, sep);
      assert s == [head[0]] + Join(shorter, sep) by {
        if |pieces| > 1 {
          assert shorter[1..] == pieces[1..];
        }
      }
      assert s[0] == head[0] != sep;
      assert s[1..] == Join(shorter, sep);
      assert [head[0]] + shorter[0] == head;
      assert shorter[1..] == pieces[1..];
    }
  }

  /** strings.LastIndex(s, string(c)): the index of the last c, or -1. */
  function LastIndex(s: string, c: char): (r: int)
    ensures -1 <= r < |s|
    ensures r == -1 <==> c !in s
    ensures r >= 0 ==> s[r] == c && c !in s[r + 1..]
    decreases |s|
  {
    if s == [] then -1
    else if s[|s| - 1] == c then |s| - 1
    else
      assert s == s[..|s| - 1] + [s[|s| - 1]];
      LastIndex(s[..|s| - 1], c)
  }

  /** `s[strings.LastIndex(s, "/") + 1:len(s)]`: what follows the last c. */
  function AfterLast(s: string, c: char): (tail: string)
    ensures c !in tail
    ensures c in s ==> |tail| < |s| && s == s[..|s| - |tail| - 1] + [c] + tail
    ensures c !in s ==> tail == s
  {
    var i := LastIndex(s, c);
    assert c in s ==> s == s[..i] + [c] + s[i + 1..];
    s[i + 1..]
  }

  /** Whatever precedes the last separator, AfterLast returns exactly what follows it. */
  lemma AfterLastOfSuffix(prefix: string, c: char, tail: string)
    requires c !in tail
    ensures AfterLast(prefix + [c] + tail, c) == tail
  {
    var s := prefix + [c] + tail;
    var r := LastIndex(s, c);
    assert s[|prefix|] == c;
    assert s[|prefix| + 1..] == tail;
  }
}
