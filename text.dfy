/**
 String helpers the page script relies on: JavaScript's notion of white space
 (shared by the regular-expression class `\s` and `String.prototype.trim`),
 trimming, and `String.prototype.split` on a one-character separator.
 Strings are sequences of code points; UTF-16 code-unit lengths are not modelled.
 */
module Text {

  /** The WhiteSpace and LineTerminator code points of ECMAScript: exactly the
      characters `\s` matches and `trim()` removes. */
  predicate IsWs(c: char) {
    var n := c as int;
    n == 0x09 || n == 0x0A || n == 0x0B || n == 0x0C || n == 0x0D || n == 0x20 ||
    n == 0xA0 || n == 0x1680 || (0x2000 <= n <= 0x200A) || n == 0x2028 ||
    n == 0x2029 || n == 0x202F || n == 0x205F || n == 0x3000 || n == 0xFEFF
  }

  predicate AllWs(s: string) {
    forall k :: 0 <= k < |s| ==> IsWs(s[k])
  }

  predicate NoWs(s: string) {
    forall k :: 0 <= k < |s| ==> !IsWs(s[k])
  }

  /** There are non-white-space characters at positions a <= b that span at least m characters. */
  predicate HasSpan(s: string, m: nat) {
    exists a, b :: 0 <= a <= b < |s| && b - a + 1 >= m && !IsWs(s[a]) && !IsWs(s[b])
  }

  /** Leading white space removed: a suffix of `s` that does not start with white space. */
  function TrimStart(s: string): (r: string)
    ensures |r| <= |s| && r == s[|s| - |r|..]
    ensures forall k :: 0 <= k < |s| - |r| ==> IsWs(s[k])
    ensures r != [] ==> !IsWs(r[0])
  {
    if s == [] || !IsWs(s[0]) then s else TrimStart(s[1..])
  }

  /** Trailing white space removed: a prefix of `s` that does not end with white space. */
  function TrimEnd(s: string): (r: string)
    ensures |r| <= |s| && r == s[..|r|]
    ensures forall k :: |r| <= k < |s| ==> IsWs(s[k])
    ensures r != [] ==> !IsWs(r[|r| - 1])
  {
    if s == [] || !IsWs(s[|s| - 1]) then s else TrimEnd(s[..|s| - 1])
  }

  /** `s.trim()`: the infix of `s` left after removing white space at both ends.
      Everything outside the infix is white space, and a non-empty result starts
      and ends with a character that is not. */
  function Trim(s: string): (r: string)
    ensures var lo := |s| - |TrimStart(s)|;
      lo + |r| <= |s| && r == s[lo..lo + |r|] &&
      (forall k :: 0 <= k < lo ==> IsWs(s[k])) &&
      (forall k :: lo + |r| <= k < |s| ==> IsWs(s[k])) &&
      (r != [] ==> !IsWs(r[0]) && !IsWs(r[|r| - 1]))
  {
    TrimEnd(TrimStart(s))
  }

  /** `!s.trim()` holds exactly when `s` consists of white space only. */
  lemma TrimEmptyIff(s: string)
    ensures Trim(s) == [] <==> AllWs(s)
  {
    var lo := |s| - |TrimStart(s)|;
    if Trim(s) != [] {
      assert s[lo] == Trim(s)[0];
    }
  }

  /** The trimmed string has at least m characters exactly when two non-white-space
      characters of `s` lie at least m - 1 positions apart. */
  lemma TrimLengthIff(s: string, m: nat)
    requires m >= 1
    ensures |Trim(s)| >= m <==> HasSpan(s, m)
  {
    if |Trim(s)| >= m {
      TrimSpanWitness(s);
    }
    if HasSpan(s, m) {
      var a, b :| 0 <= a <= b < |s| && b - a + 1 >= m && !IsWs(s[a]) && !IsWs(s[b]);
      TrimCovers(s, a);
      TrimCovers(s, b);
    }
  }

  /** A non-empty trimmed string starts and ends at non-white-space characters of `s`. */
  lemma TrimSpanWitness(s: string)
    requires Trim(s) != []
    ensures HasSpan(s, |Trim(s)|)
  {
    var r := Trim(s);
    var lo := |s| - |TrimStart(s)|;
    assert s[lo] == r[0] && s[lo + |r| - 1] == r[|r| - 1];
  }

  /** Every non-white-space character of `s` lies inside the trimmed infix. */
  lemma TrimCovers(s: string, a: nat)
    requires a < |s| && !IsWs(s[a])
    ensures |s| - |TrimStart(s)| <= a < |s| - |TrimStart(s)| + |Trim(s)|
  {
  }

  /** `s.split(sep)` for a one-character separator: the maximal runs between separators,
      always at least one (possibly empty) piece. */
  function Split(s: string, sep: char): (parts: seq<string>)
    ensures |parts| >= 1
    ensures forall i :: 0 <= i < |parts| ==> sep !in parts[i]
  {
    if s == [] then [[]]
    else
      var rest := Split(s[1..], sep);
      if s[0] == sep then [[]] + rest else [[s[0]] + rest[0]] + rest[1..]
  }

  /** `parts.join(sep)`. */
  function Join(parts: seq<string>, sep: char): string
    requires |parts| >= 1
    decreases |parts|
  {
    if |parts| == 1 then parts[0] else parts[0] + [sep] + Join(parts[1..], sep)
  }

  function Last(parts: seq<string>): string
    requires |parts| >= 1
  {
    parts[|parts| - 1]
  }

  /** Splitting loses nothing: joining the pieces back gives the original string. */
  lemma {:induction false} JoinSplit(s: string, sep: char)
    ensures Join(Split(s, sep), sep) == s
  {
    if s != [] {
      var rest := Split(s[1..], sep);
      JoinSplit(s[1..], sep);
      if s[0] == sep {
        assert Split(s, sep)[1..] == rest;
      } else {
        var parts := Split(s, sep);
        if |rest| == 1 {
          assert parts == [[s[0]] + rest[0]];
        } else {
          assert parts[1..] == rest[1..];
          assert Join(rest, sep) == rest[0] + [sep] + Join(rest[1..], sep);
        }
      }
    }
  }

  /** A piece without the separator splits to itself. */
  lemma {:induction false} SplitPlain(a: string, sep: char)
    requires sep !in a
    ensures Split(a, sep) == [a]
  {
    if a != [] {
      assert a[0] in a;
      SplitPlain(a[1..], sep);
      assert [a[0]] + a[1..] == a;
    }
  }

  /** A leading piece followed by a separator splits off as the first element. */
  lemma {:induction false} SplitCons(a: string, t: string, sep: char)
    requires sep !in a
    ensures Split(a + [sep] + t, sep) == [a] + Split(t, sep)
  {
    if a == [] {
      assert ([] + [sep] + t)[1..] == t;
    } else {
      assert a[0] in a;
      assert (a + [sep] + t)[0] == a[0];
      assert (a + [sep] + t)[1..] == a[1..] + [sep] + t;
      SplitCons(a[1..], t, sep);
      assert [a[0]] + a[1..] == a;
    }
  }

  /** Joining pieces that contain no separator and splitting again gives the pieces back. */
  lemma {:induction false} SplitJoin(parts: seq<string>, sep: char)
    requires |parts| >= 1
    requires forall i :: 0 <= i < |parts| ==> sep !in parts[i]
    ensures Split(Join(parts, sep), sep) == parts
    decreases |parts|
  {
    if |parts| == 1 {
      SplitPlain(parts[0], sep);
    } else {
      SplitCons(parts[0], Join(parts[1..], sep), sep);
      SplitJoin(parts[1..], sep);
    }
  }

  /** Joining all pieces equals joining all but the last and appending the last. */
  lemma {:induction false} JoinSnoc(parts: seq<string>, sep: char)
    requires |parts| >= 2
    ensures Join(parts, sep) == Join(parts[..|parts| - 1], sep) + [sep] + Last(parts)
    decreases |parts|
  {
    if |parts| > 2 {
      JoinSnoc(parts[1..], sep);
      assert parts[1..][..|parts| - 2] == parts[..|parts| - 1][1..];
    }
  }

  /** `s.split(sep).pop()` is the suffix of `s` after its last separator
      (all of `s` when there is none). */
  lemma LastPiece(s: string, sep: char)
    ensures var p := Last(Split(s, sep));
      sep !in p && |p| <= |s| && p == s[|s| - |p|..] &&
      (|p| < |s| ==> s[|s| - |p| - 1] == sep)
  {
    var parts := Split(s, sep);
    JoinSplit(s, sep);
    if |parts| >= 2 {
      JoinSnoc(parts, sep);
    }
  }

  /** `s.split(sep)[0]` is the prefix of `s` before its first separator
      (all of `s` when there is none). */
  lemma FirstPiece(s: string, sep: char)
    ensures var p := Split(s, sep)[0];
      sep !in p && |p| <= |s| && p == s[..|p|] && (|p| < |s| ==> s[|p|] == sep)
  {
    var parts := Split(s, sep);
    JoinSplit(s, sep);
  }
}
