/** The Kotlin string operations the screen relies on: `trim()` (with
    Kotlin's notion of whitespace), `split(",")` and joining with a
    separator, which is the inverse of splitting. */
module Text {

  /** Kotlin's `Char.isWhitespace()` on the JVM: Java whitespace or a Unicode
      space separator (categories Zs, Zl, Zp), so the no-break spaces count
      too. */
  predicate IsWhitespace(c: char) {
    var n := c as int;
    n == 0x20 || 0x09 <= n <= 0x0D || 0x1C <= n <= 0x1F
    || n == 0xA0 || n == 0x1680 || 0x2000 <= n <= 0x200A
    || n == 0x2028 || n == 0x2029 || n == 0x202F || n == 0x205F || n == 0x3000
  }

  /** Within ASCII, whitespace is the space, the tab, line feed, vertical
      tab, form feed and carriage return, and the four information
      separators; letters, digits and the comma are not whitespace. */
  lemma AsciiWhitespace(c: char)
    requires c as int < 0x80
    ensures IsWhitespace(c) <==> c == ' ' || '\t' <= c <= '\r' || 0x1C <= c as int <= 0x1F
    ensures ('0' <= c <= '9' || 'a' <= c <= 'z' || 'A' <= c <= 'Z' || c == ',') ==> !IsWhitespace(c)
  {
  }

  /** Every character is whitespace (this includes the empty string). */
  predicate Blank(s: string) {
    forall k :: 0 <= k < |s| ==> IsWhitespace(s[k])
  }

  /** Neither the first nor the last character is whitespace. */
  predicate Trimmed(s: string) {
    s == [] || (!IsWhitespace(s[0]) && !IsWhitespace(s[|s| - 1]))
  }

  /** Number of occurrences of `c` in `s`. */
  function Count(s: string, c: char): nat {
    if s == [] then 0 else (if s[0] == c then 1 else 0) + Count(s[1..], c)
  }

  /** Drops the leading whitespace: what remains is a suffix of `s` that does
      not start with whitespace. */
  function TrimStart(s: string): (r: string)
    ensures |r| <= |s| && r == s[|s| - |r|..]
    ensures r == [] || !IsWhitespace(r[0])
  {
    if s != [] && IsWhitespace(s[0]) then TrimStart(s[1..]) else s
  }

  /** Drops the trailing whitespace: what remains is a prefix of `s` that
      does not end with whitespace. */
  function TrimEnd(s: string): (r: string)
    ensures |r| <= |s| && r == s[..|r|]
    ensures r == [] || !IsWhitespace(r[|r| - 1])
  {
    if s != [] && IsWhitespace(s[|s| - 1]) then TrimEnd(s[..|s| - 1]) else s
  }

  /** What `TrimStart` drops is whitespace. */
  lemma {:induction false} TrimStartDropsBlank(s: string)
    ensures Blank(s[..|s| - |TrimStart(s)|])
  {
    if s != [] && IsWhitespace(s[0]) {
      var n := |s| - |TrimStart(s)|;
      TrimStartDropsBlank(s[1..]);
      forall k | 0 <= k < n ensures IsWhitespace(s[k]) {
        if k > 0 {
          assert s[k] == s[1..][..n - 1][k - 1];
        }
      }
    }
  }

  /** What `TrimEnd` drops is whitespace. */
  lemma {:induction false} TrimEndDropsBlank(s: string)
    ensures Blank(s[|TrimEnd(s)|..])
  {
    if s != [] && IsWhitespace(s[|s| - 1]) {
      var s' := s[..|s| - 1];
      var m := |TrimEnd(s)|;
      TrimEndDropsBlank(s');
      forall k | m <= k < |s| ensures IsWhitespace(s[k]) {
        if k < |s| - 1 {
          assert s[k] == s'[m..][k - m];
        }
      }
    }
  }

  /** Kotlin's `String.trim()`. The result has no surrounding whitespace and
      is empty exactly when `s` is blank. */
  function Trim(s: string): (r: string)
    ensures Trimmed(r)
    ensures r == [] <==> Blank(s)
  {
    TrimmedAtBothEnds(s);
    TrimEmptyWhenBlank(s);
    TrimEnd(TrimStart(s))
  }

  lemma TrimmedAtBothEnds(s: string)
    ensures Trimmed(TrimEnd(TrimStart(s)))
  {
    var t := TrimStart(s);
    var r := TrimEnd(t);
    if r != [] {
      assert r[0] == t[0];
    }
  }

  lemma TrimEmptyWhenBlank(s: string)
    ensures TrimEnd(TrimStart(s)) == [] <==> Blank(s)
  {
    TrimStartEmptyWhenBlank(s);
    var t := TrimStart(s);
    if TrimEnd(t) == [] {
      TrimEndDropsBlank(t);
      assert t[|TrimEnd(t)|..] == t;
    }
  }

  lemma TrimStartEmptyWhenBlank(s: string)
    ensures TrimStart(s) == [] <==> Blank(s)
  {
    var t := TrimStart(s);
    var a := |s| - |t|;
    if t == [] {
      TrimStartDropsBlank(s);
      assert s[..a] == s;
    } else {
      assert t[0] == s[a];
    }
  }

  /** Trimming only removes characters: everything in the result is in `s`. */
  lemma TrimKeepsCharacters(s: string)
    ensures var r := Trim(s); forall k :: 0 <= k < |r| ==> r[k] in s
  {
    var t := TrimStart(s);
    var a := |s| - |t|;
    assert Trim(s) == TrimEnd(t);
    SliceKeepsCharacters(s, a, TrimEnd(t));
  }

  lemma SliceKeepsCharacters(s: string, a: nat, r: string)
    requires a <= |s| && |r| <= |s| - a && r == s[a..][..|r|]
    ensures forall k :: 0 <= k < |r| ==> r[k] in s
  {
    forall k | 0 <= k < |r| ensures r[k] in s {
      assert r[k] == s[a + k];
    }
  }

  /** `Trim(s)` is `s` with a blank prefix and a blank suffix removed. */
  lemma TrimIsSlice(s: string)
    ensures exists a, b :: 0 <= a <= b <= |s| && Trim(s) == s[a..b] && Blank(s[..a]) && Blank(s[b..])
  {
    var t := TrimStart(s);
    var r := TrimEnd(t);
    var a := |s| - |t|;
    var b := a + |r|;
    TrimStartDropsBlank(s);
    TrimEndDropsBlank(t);
    assert r == s[a..b];
    assert s[b..] == t[|r|..];
  }

  /** Trimming a string without surrounding whitespace changes nothing; in
      particular trimming twice is trimming once. */
  lemma TrimOfTrimmed(s: string)
    requires Trimmed(s)
    ensures Trim(s) == s
  {
  }

  lemma TrimIdempotent(s: string)
    ensures Trim(Trim(s)) == Trim(s)
  {
    TrimOfTrimmed(Trim(s));
  }

  /** Kotlin's `split(sep)` with a single-character delimiter and no limit:
      every occurrence of `sep` ends a piece, empty pieces (leading, inner
      and trailing) are kept, and the empty string gives one empty piece. */
  function Split(s: string, sep: char): (parts: seq<string>)
    ensures |parts| == Count(s, sep) + 1
    ensures forall i :: 0 <= i < |parts| ==> sep !in parts[i]
  {
    if s == [] then [[]]
    else
      var rest := Split(s[1..], sep);
      if s[0] == sep then [[]] + rest
      else [[s[0]] + rest[0]] + rest[1..]
  }

  /** Kotlin's `joinToString(sep)` for a one-character separator. */
  function Join(parts: seq<string>, sep: char): string {
    if |parts| == 0 then []
    else if |parts| == 1 then parts[0]
    else parts[0] + [sep] + Join(parts[1..], sep)
  }

  lemma {:induction false} CountAppend(a: string, b: string, c: char)
    ensures Count(a + b, c) == Count(a, c) + Count(b, c)
  {
    if a != [] {
      assert (a + b)[1..] == a[1..] + b;
      CountAppend(a[1..], b, c);
    } else {
      assert a + b == b;
    }
  }

  lemma {:induction false} CountAbsent(s: string, c: char)
    requires c !in s
    ensures Count(s, c) == 0
  {
    if s != [] {
      CountAbsent(s[1..], c);
    }
  }

  /** Joining the pieces of a split gives back the original string. */
  lemma {:induction false} JoinSplit(s: string, sep: char)
    ensures Join(Split(s, sep), sep) == s
  {
    if s != [] {
      var rest := Split(s[1..], sep);
      JoinSplit(s[1..], sep);
      if s[0] == sep {
        assert ([[]] + rest)[1..] == rest;
      } else {
        var parts := [[s[0]] + rest[0]] + rest[1..];
        if |rest| > 1 {
          assert parts[1..] == rest[1..];
          assert Join(rest, sep) == rest[0] + [sep] + Join(rest[1..], sep);
        }
      }
    }
  }

  /** Splitting `p + tail` where `p` holds no separator: `p` is glued to the
      front of the first piece of `tail`. */
  lemma {:induction false} SplitPrefix(p: string, tail: string, sep: char)
    requires sep !in p
    ensures Split(p + tail, sep) == [p + Split(tail, sep)[0]] + Split(tail, sep)[1..]
  {
    if p == [] {
      var pt := Split(tail, sep);
      assert p + tail == tail;
      assert p + pt[0] == pt[0];
      assert [pt[0]] + pt[1..] == pt;
    } else {
      assert (p + tail)[1..] == p[1..] + tail;
      SplitPrefix(p[1..], tail, sep);
      assert [p[0]] + (p[1..] + Split(tail, sep)[0]) == p + Split(tail, sep)[0];
    }
  }

  /** Splitting a join of separator-free pieces gives back the pieces. */
  lemma {:induction false} SplitJoin(parts: seq<string>, sep: char)
    requires |parts| >= 1
    requires forall i :: 0 <= i < |parts| ==> sep !in parts[i]
    ensures Split(Join(parts, sep), sep) == parts
  {
    if |parts| == 1 {
      SplitPrefix(parts[0], [], sep);
      assert parts[0] + [] == parts[0];
    } else {
      var rest := Join(parts[1..], sep);
      SplitJoin(parts[1..], sep);
      var tail := [sep] + rest;
      assert Join(parts, sep) == parts[0] + tail;
      assert tail[1..] == rest;
      assert Split(tail, sep) == [[]] + parts[1..];
      SplitPrefix(parts[0], tail, sep);
      assert parts[0] + [] == parts[0];
      assert parts == [parts[0]] + parts[1..];
    }
  }
}
