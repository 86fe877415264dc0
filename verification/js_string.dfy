/**
 The few ECMAScript string operations the playlist resolver relies on:
 `trim`, `split` and `join` with a one-character separator, and `includes`
 on strings. `LastIndexOf` is not one of them: it is a reference definition
 of the last position of a character, against which the results of `split`
 are stated. Strings are
 sequences of Unicode scalar values rather than UTF-16 code units.
 */
module JsString {

  /** The WhiteSpace and LineTerminator code points of ECMAScript, which
      `String.prototype.trim` strips from both ends. */
  predicate IsWhitespace(c: char)
  {
    || c == '\t' || c == '\n' || c == '\U{000B}' || c == '\U{000C}' || c == '\r'
    || c == ' ' || c == '\U{00A0}' || c == '\U{1680}'
    || ('\U{2000}' <= c <= '\U{200A}')
    || c == '\U{2028}' || c == '\U{2029}' || c == '\U{202F}' || c == '\U{205F}'
    || c == '\U{3000}' || c == '\U{FEFF}'
  }

  /** Index of the first character of `s` that is not whitespace (|s| if none). */
  function TrimStartIndex(s: string): (i: nat)
    ensures i <= |s|
    ensures forall k :: 0 <= k < i ==> IsWhitespace(s[k])
    ensures i < |s| ==> !IsWhitespace(s[i])
  {
    if |s| == 0 || !IsWhitespace(s[0]) then 0 else 1 + TrimStartIndex(s[1..])
  }

  /** Index just past the last character of `s` that is not whitespace (0 if none). */
  function TrimEndIndex(s: string): (j: nat)
    ensures j <= |s|
    ensures forall k :: j <= k < |s| ==> IsWhitespace(s[k])
    ensures 0 < j ==> !IsWhitespace(s[j - 1])
  {
    if |s| == 0 || !IsWhitespace(s[|s| - 1]) then |s| else TrimEndIndex(s[..|s| - 1])
  }

  /** `String.prototype.trim`: the contiguous part of `s` between its leading
      and its trailing whitespace. */
  function Trim(s: string): (r: string)
    ensures |r| <= |s|
    ensures TrimStartIndex(s) + |r| <= |s| && r == s[TrimStartIndex(s)..TrimStartIndex(s) + |r|]
    ensures 0 < |r| ==> !IsWhitespace(r[0]) && !IsWhitespace(r[|r| - 1])
    ensures forall k :: 0 <= k < |s| && !IsWhitespace(s[k]) ==>
              TrimStartIndex(s) <= k < TrimStartIndex(s) + |r|
  {
    var i := TrimStartIndex(s);
    var j := TrimEndIndex(s);
    if j <= i then "" else s[i..j]
  }

  /** Trimming adds no character: one absent from `s` is absent from its trim. */
  lemma TrimKeepsOut(s: string, c: char)
    requires c !in s
    ensures c !in Trim(s)
  {
    var r := Trim(s);
    assert forall k :: 0 <= k < |r| ==> r[k] == s[TrimStartIndex(s) + k];
  }

  /** Trimming twice is trimming once. */
  lemma TrimIdempotent(s: string)
    ensures Trim(Trim(s)) == Trim(s)
  {
    var r := Trim(s);
    if 0 < |r| {
      assert TrimStartIndex(r) == 0;
      assert TrimEndIndex(r) == |r|;
    }
  }

  /** `String.prototype.split(sep)` for a one-character separator: the maximal
      separator-free pieces of `s`, in order. Always at least one piece. */
  function Split(s: string, sep: char): (parts: seq<string>)
    ensures 1 <= |parts|
    ensures forall k :: 0 <= k < |parts| ==> sep !in parts[k]
    ensures |parts| == 1 <==> sep !in s
  {
    if |s| == 0 then [""]
    else
      var rest := Split(s[1..], sep);
      if s[0] == sep then [""] + rest
      else [[s[0]] + rest[0]] + rest[1..]
  }

  /** `Array.prototype.join(sep)` for a one-character separator. */
  function Join(parts: seq<string>, sep: char): (s: string)
  {
    if |parts| == 0 then ""
    else if |parts| == 1 then parts[0]
    else parts[0] + [sep] + Join(parts[1..], sep)
  }

  /** A separator-free prefix fuses with the first piece of the rest. */
  lemma {:induction false} SplitSeparatorFreePrefix(a: string, t: string, sep: char)
    requires sep !in a
    ensures Split(a + t, sep) == [a + Split(t, sep)[0]] + Split(t, sep)[1..]
    decreases |a|
  {
    var pieces := Split(t, sep);
    if |a| == 0 {
      assert a + t == t;
      assert a + pieces[0] == pieces[0];
      assert pieces == [pieces[0]] + pieces[1..];
    } else {
      var rest := Split(a[1..] + t, sep);
      assert rest == [a[1..] + pieces[0]] + pieces[1..] by {
        SplitSeparatorFreePrefix(a[1..], t, sep);
      }
      assert Split(a + t, sep) == [[a[0]] + rest[0]] + rest[1..] by {
        assert (a + t)[0] == a[0] != sep;
        assert (a + t)[1..] == a[1..] + t;
      }
      assert [a[0]] + rest[0] == a + pieces[0] by {
        assert rest[0] == a[1..] + pieces[0];
        assert a == [a[0]] + a[1..];
      }
      assert rest[1..] == pieces[1..];
    }
  }

  /** Round trip: joining the pieces of a split with the same separator gives
      back the original string. */
  lemma {:induction false} SplitThenJoin(s: string, sep: char)
    ensures Join(Split(s, sep), sep) == s
    decreases |s|
  {
    if |s| != 0 {
      var rest := Split(s[1..], sep);
      SplitThenJoin(s[1..], sep);
      assert s == [s[0]] + s[1..];
      if s[0] == sep {
        assert Split(s, sep) == [""] + rest;
        JoinEmptyFirst(rest, sep);
      } else {
        assert Split(s, sep) == [[s[0]] + rest[0]] + rest[1..];
        JoinFusedFirst(s[0], rest, sep);
      }
    }
  }

  /** An empty first piece contributes only its separator. */
  lemma JoinEmptyFirst(rest: seq<string>, sep: char)
    requires 1 <= |rest|
    ensures Join([""] + rest, sep) == [sep] + Join(rest, sep)
  {
    assert ([""] + rest)[1..] == rest;
  }

  /** A character put in front of the first piece lands in front of the join. */
  lemma JoinFusedFirst(c: char, rest: seq<string>, sep: char)
    requires 1 <= |rest|
    ensures Join([[c] + rest[0]] + rest[1..], sep) == [c] + Join(rest, sep)
  {
    var parts := [[c] + rest[0]] + rest[1..];
    if 1 < |rest| {
      assert parts[1..] == rest[1..];
      assert Join(parts, sep) == ([c] + rest[0]) + [sep] + Join(rest[1..], sep);
    }
  }

  /** Round trip the other way: splitting a join of separator-free pieces
      gives back the pieces. */
  lemma {:induction false} JoinThenSplit(parts: seq<string>, sep: char)
    requires 1 <= |parts|
    requires forall k :: 0 <= k < |parts| ==> sep !in parts[k]
    ensures Split(Join(parts, sep), sep) == parts
    decreases |parts|
  {
    if |parts| == 1 {
      SplitSeparatorFreePrefix(parts[0], "", sep);
      assert parts[0] + "" == parts[0];
    } else {
      var tail := Join(parts[1..], sep);
      JoinThenSplit(parts[1..], sep);
      assert parts[0] + [sep] + tail == parts[0] + ([sep] + tail);
      SplitSeparatorFreePrefix(parts[0], [sep] + tail, sep);
      assert ([sep] + tail)[1..] == tail;
      assert Split([sep] + tail, sep) == [""] + parts[1..];
      assert parts[0] + "" == parts[0];
      assert parts == [parts[0]] + parts[1..];
    }
  }

  /** Joining all pieces but the last, then the separator, then the last piece. */
  lemma {:induction false} JoinSnoc(parts: seq<string>, sep: char)
    requires 2 <= |parts|
    ensures Join(parts, sep) == Join(parts[..|parts| - 1], sep) + [sep] + parts[|parts| - 1]
    decreases |parts|
  {
    if |parts| > 2 {
      JoinSnoc(parts[1..], sep);
      assert parts[1..][..|parts[1..]| - 1] == parts[..|parts| - 1][1..];
    }
  }

  /** Reference definition: the last position of `c` in `s`, -1 when `c`
      does not occur. */
  function LastIndexOf(s: string, c: char): (r: int)
    ensures -1 <= r < |s|
    ensures 0 <= r ==> s[r] == c
    ensures forall k :: r < k < |s| ==> s[k] != c
  {
    if |s| == 0 then -1
    else if s[|s| - 1] == c then |s| - 1
    else LastIndexOf(s[..|s| - 1], c)
  }

  /** The last occurrence of `c` in `a + [c] + b` is the one between them,
      when `b` does not contain `c`. */
  lemma {:induction false} LastIndexOfSplitPoint(a: string, b: string, c: char)
    requires c !in b
    ensures LastIndexOf(a + [c] + b, c) == |a|
    decreases |b|
  {
    var s := a + [c] + b;
    if |b| == 0 {
      assert s[|s| - 1] == c;
    } else {
      var b' := b[..|b| - 1];
      assert s[|s| - 1] == b[|b| - 1];
      assert s[..|s| - 1] == a + [c] + b';
      LastIndexOfSplitPoint(a, b', c);
    }
  }

  /** The last piece of a split is the text after the last separator, and the
      other pieces re-joined are the text before it. */
  lemma SplitAtLastSeparator(s: string, sep: char)
    ensures var parts := Split(s, sep);
            var k := LastIndexOf(s, sep);
            && (k < 0 ==> parts == [s])
            && (0 <= k ==> parts[|parts| - 1] == s[k + 1..]
                           && Join(parts[..|parts| - 1], sep) == s[..k])
  {
    if |Split(s, sep)| == 1 {
      SplitWithoutSeparator(s, sep);
    } else {
      SplitWithSeparator(s, sep);
    }
  }

  /** A split into one piece: the separator does not occur. */
  lemma SplitWithoutSeparator(s: string, sep: char)
    requires |Split(s, sep)| == 1
    ensures LastIndexOf(s, sep) < 0 && Split(s, sep) == [s]
  {
    SplitThenJoin(s, sep);
  }

  /** A split into several pieces: the last separator sits between the
      re-joined leading pieces and the last piece. */
  lemma SplitWithSeparator(s: string, sep: char)
    requires 2 <= |Split(s, sep)|
    ensures var parts := Split(s, sep);
            var k := LastIndexOf(s, sep);
            && 0 <= k
            && parts[|parts| - 1] == s[k + 1..]
            && Join(parts[..|parts| - 1], sep) == s[..k]
  {
    LastSeparatorOfSplit(s, sep);
    SlicesOfSplit(s, sep);
  }

  /** The last separator comes right after the re-joined leading pieces. */
  lemma LastSeparatorOfSplit(s: string, sep: char)
    requires 2 <= |Split(s, sep)|
    ensures var parts := Split(s, sep);
            LastIndexOf(s, sep) == |Join(parts[..|parts| - 1], sep)|
  {
    var parts := Split(s, sep);
    SplitAroundLast(s, sep);
    LastIndexOfAt(s, Join(parts[..|parts| - 1], sep), parts[|parts| - 1], sep);
  }

  /** `LastIndexOfSplitPoint` for a string known to have that shape. */
  lemma LastIndexOfAt(s: string, a: string, b: string, c: char)
    requires s == a + [c] + b && c !in b
    ensures LastIndexOf(s, c) == |a|
  {
    LastIndexOfSplitPoint(a, b, c);
  }

  /** The text before and after that separator. */
  lemma SlicesOfSplit(s: string, sep: char)
    requires 2 <= |Split(s, sep)|
    ensures var parts := Split(s, sep);
            var n := |Join(parts[..|parts| - 1], sep)|;
            && n < |s|
            && s[..n] == Join(parts[..|parts| - 1], sep)
            && s[n + 1..] == parts[|parts| - 1]
  {
    var parts := Split(s, sep);
    SplitAroundLast(s, sep);
    SliceAroundSeparator(Join(parts[..|parts| - 1], sep), parts[|parts| - 1], sep);
  }

  /** The string is its leading pieces re-joined, a separator, and its last
      piece. */
  lemma SplitAroundLast(s: string, sep: char)
    requires 2 <= |Split(s, sep)|
    ensures var parts := Split(s, sep);
            s == Join(parts[..|parts| - 1], sep) + [sep] + parts[|parts| - 1]
  {
    SplitThenJoin(s, sep);
    JoinSnoc(Split(s, sep), sep);
  }

  /** The two sides of a separator placed between `a` and `b`. */
  lemma SliceAroundSeparator(a: string, b: string, sep: char)
    ensures (a + [sep] + b)[..|a|] == a
    ensures (a + [sep] + b)[|a| + 1..] == b
  {
  }

  /** `needle` occurs in `hay` starting at position `i`. */
  predicate OccursAt(hay: string, needle: string, i: nat)
  {
    i + |needle| <= |hay| && hay[i..i + |needle|] == needle
  }

  /** `String.prototype.includes`: `needle` occurs somewhere in `hay`. */
  function Contains(hay: string, needle: string): (b: bool)
    ensures needle == [] ==> b
    ensures |hay| < |needle| ==> !b
  {
    needle <= hay || (0 < |hay| && Contains(hay[1..], needle))
  }

  /** Moving the start of the haystack by one moves every occurrence by one. */
  lemma OccursShift(hay: string, needle: string, i: nat)
    requires 0 < |hay|
    ensures OccursAt(hay[1..], needle, i) <==> OccursAt(hay, needle, i + 1)
  {
    if i + 1 + |needle| <= |hay| {
      assert hay[1..][i..i + |needle|] == hay[i + 1..i + 1 + |needle|];
    }
  }

  /** `Contains` holds exactly when there is a position where `needle` occurs. */
  lemma {:induction false} ContainsIffOccurs(hay: string, needle: string)
    ensures Contains(hay, needle) <==> exists i: nat :: OccursAt(hay, needle, i)
    decreases |hay|
  {
    if needle <= hay {
      assert OccursAt(hay, needle, 0);
    } else {
      assert !OccursAt(hay, needle, 0);
      if 0 < |hay| {
        ContainsIffOccurs(hay[1..], needle);
        if Contains(hay[1..], needle) {
          var i: nat :| OccursAt(hay[1..], needle, i);
          OccursShift(hay, needle, i);
        } else {
          forall i: nat
            ensures !OccursAt(hay, needle, i)
          {
            if 0 < i {
              OccursShift(hay, needle, i - 1);
            }
          }
        }
      }
    }
  }
}
