/** The JavaScript string operations the app relies on: `split` on a one-character separator,
    `split(sep).pop()`, `startsWith` and `includes`. */
module Text {

  /** `s.split(sep)` for a one-character separator: the maximal separator-free pieces, in order;
      never empty (`"".split("/")` is `[""]`). */
  function Split(s: string, sep: char): (parts: seq<string>)
    ensures |parts| >= 1
  {
    if s == [] then [[]]
    else
      var rest := Split(s[1..], sep);
      if s[0] == sep then [[]] + rest else [[s[0]] + rest[0]] + rest[1..]
  }

  /** `s` with one separator between consecutive pieces. */
  function Join(parts: seq<string>, sep: char): string
    requires |parts| >= 1
  {
    if |parts| == 1 then parts[0] else parts[0] + [sep] + Join(parts[1..], sep)
  }

  /** `suffix` is the part of `s` after its last separator, or all of `s` when there is none. */
  ghost predicate IsLastSegment(s: string, sep: char, suffix: string) {
    && |suffix| <= |s|
    && suffix == s[|s| - |suffix|..]
    && sep !in suffix
    && (|suffix| == |s| || s[|s| - |suffix| - 1] == sep)
  }

  /** Splitting and joining again gives back the string, and no piece holds the separator. */
  lemma {:induction false} JoinSplit(s: string, sep: char)
    ensures Join(Split(s, sep), sep) == s
    ensures forall i :: 0 <= i < |Split(s, sep)| ==> sep !in Split(s, sep)[i]
  {
    if s != [] {
      var rest := Split(s[1..], sep);
      JoinSplit(s[1..], sep);
      if s[0] == sep {
        assert Split(s, sep)[1..] == rest;
        assert s == [s[0]] + s[1..];
      } else {
        var parts := Split(s, sep);
        assert parts[1..] == rest[1..];
        if |rest| == 1 {
          assert s == [s[0]] + rest[0];
        } else {
          assert Join(rest, sep) == rest[0] + [sep] + Join(rest[1..], sep);
          assert s == [s[0]] + s[1..];
        }
        forall i | 0 <= i < |parts| ensures sep !in parts[i] {
          if i > 0 { assert parts[i] == rest[i]; }
        }
      }
    }
  }

  lemma {:induction false} LastPieceOfSplit(s: string, sep: char)
    ensures var parts := Split(s, sep); var p := parts[|parts| - 1];
      sep !in p &&
      ((|parts| == 1 && p == s) || (|parts| >= 2 && |p| < |s| && p == s[|s| - |p|..] && s[|s| - |p| - 1] == sep))
  {
    if s != [] {
      var tail := s[1..];
      LastPieceOfSplit(tail, sep);
      var rest := Split(tail, sep);
      var p := rest[|rest| - 1];
      var parts := Split(s, sep);
      if s[0] == sep {
        assert parts == [[]] + rest;
        assert parts[|parts| - 1] == p;
        assert s[|s| - |p|..] == tail[|tail| - |p|..];
      } else if |rest| == 1 {
        assert parts == [[s[0]] + rest[0]];
        assert [s[0]] + tail == s;
      } else {
        assert parts == [[s[0]] + rest[0]] + rest[1..];
        assert parts[|parts| - 1] == p;
        assert s[|s| - |p|..] == tail[|tail| - |p|..];
        assert s[|s| - |p| - 1] == tail[|tail| - |p| - 1];
      }
    }
  }

  lemma LastSegmentUnique(s: string, sep: char, a: string, b: string)
    requires IsLastSegment(s, sep, a) && IsLastSegment(s, sep, b)
    ensures a == b
  {
  }

  /** `s.split(sep).pop()`: the text after the last separator. */
  function LastSegment(s: string, sep: char): (r: string)
    ensures IsLastSegment(s, sep, r)
  {
    var parts := Split(s, sep);
    LastPieceOfSplit(s, sep);
    parts[|parts| - 1]
  }

  /** The last segment is empty exactly when the string is empty or ends with the separator. */
  lemma LastSegmentEmpty(s: string, sep: char)
    ensures LastSegment(s, sep) == [] <==> (s == [] || s[|s| - 1] == sep)
  {
  }

  /** The first piece of `head + [sep] + tail` is `head` when `head` holds no separator. */
  lemma {:induction false} SplitFirstPiece(head: string, sep: char, tail: string)
    requires sep !in head
    ensures Split(head + [sep] + tail, sep)[0] == head
  {
    var s := head + [sep] + tail;
    if head != [] {
      assert s[1..] == head[1..] + [sep] + tail;
      SplitFirstPiece(head[1..], sep, tail);
      assert head == [head[0]] + head[1..];
    }
  }

  /** `s.startsWith(prefix)`. */
  predicate StartsWith(s: string, prefix: string) {
    |prefix| <= |s| && s[..|prefix|] == prefix
  }

  /** `s.includes(sub)`, searched position by position from the left. */
  predicate Includes(s: string, sub: string)
    decreases |s|
  {
    StartsWith(s, sub) || (s != [] && Includes(s[1..], sub))
  }

  /** `sub` occurs in `s` starting at position `i`. */
  predicate OccursAt(s: string, sub: string, i: int) {
    0 <= i <= |s| - |sub| && s[i..i + |sub|] == sub
  }

  /** `Includes` holds exactly when `sub` occurs at some position of `s`. */
  lemma {:induction false} IncludesOccurrence(s: string, sub: string)
    ensures Includes(s, sub) <==> exists i :: OccursAt(s, sub, i)
    decreases |s|
  {
    if StartsWith(s, sub) {
      assert OccursAt(s, sub, 0);
    } else if s == [] {
    } else {
      IncludesOccurrence(s[1..], sub);
      if exists i :: OccursAt(s, sub, i) {
        var i :| OccursAt(s, sub, i);
        assert i != 0;
        assert s[1..][i - 1..i - 1 + |sub|] == sub;
        assert OccursAt(s[1..], sub, i - 1);
      }
      if Includes(s[1..], sub) {
        var j :| OccursAt(s[1..], sub, j);
        assert s[j + 1..j + 1 + |sub|] == s[1..][j..j + |sub|];
        assert OccursAt(s, sub, j + 1);
      }
    }
  }
}
