/**
 The Rust string operations the asset pipeline relies on, as functions on
 `seq<char>`: `split(c)`, `join(sep)`, `lines()`, `trim()`, `ends_with`,
 `strip_prefix`, and the "first line with a given prefix" scan.
 */
module Text {
  import opened Common

  /** Position of the first `c` in `s`. */
  function IndexOf(s: string, c: char): (i: nat)
    requires c in s
    ensures i < |s| && s[i] == c
    ensures forall k :: 0 <= k < i ==> s[k] != c
    ensures c !in s[..i]
  {
    if s[0] == c then 0
    else
      var j := IndexOf(s[1..], c);
      assert s[..j + 1] == [s[0]] + s[1..][..j];
      j + 1
  }

  /** The first `c` in `a + [c] + b` is the one after `a` when `a` has none. */
  lemma IndexOfAfter(a: string, c: char, b: string)
    requires c !in a
    ensures c in a + [c] + b
    ensures IndexOf(a + [c] + b, c) == |a|
  {
    var s := a + [c] + b;
    assert s[|a|] == c;
    assert s[..|a|] == a;
    var i := IndexOf(s, c);
  }

  /** Rust's `s.split(c)`: the pieces between occurrences of `c`; always at least one. */
  function Split(s: string, c: char): (parts: seq<string>)
    ensures |parts| >= 1
    ensures forall k :: 0 <= k < |parts| ==> c !in parts[k]
    decreases |s|
  {
    if c !in s then [s]
    else
      var i := IndexOf(s, c);
      [s[..i]] + Split(s[i + 1..], c)
  }

  /** Splitting `a + [c] + b` yields `a` followed by the pieces of `b`. */
  lemma SplitAfter(a: string, c: char, b: string)
    requires c !in a
    ensures Split(a + [c] + b, c) == [a] + Split(b, c)
  {
    var s := a + [c] + b;
    IndexOfAfter(a, c, b);
    assert s[..|a|] == a;
    assert s[|a| + 1..] == b;
  }

  /** Rust's `parts.join(sep)`. */
  function Join(parts: seq<string>, sep: string): string
  {
    if |parts| == 0 then ""
    else if |parts| == 1 then parts[0]
    else parts[0] + sep + Join(parts[1..], sep)
  }

  /** Every `c` of `s` replaced by `d`, every other character kept in place. */
  function Replace(s: string, c: char, d: char): (r: string)
  {
    seq(|s|, k requires 0 <= k < |s| => if s[k] == c then d else s[k])
  }

  lemma ReplaceAppend(a: string, b: string, c: char, d: char)
    ensures Replace(a + b, c, d) == Replace(a, c, d) + Replace(b, c, d)
  {
    var l, r := Replace(a + b, c, d), Replace(a, c, d) + Replace(b, c, d);
    assert |l| == |r|;
    forall k | 0 <= k < |l|
      ensures l[k] == r[k]
    {
      if k < |a| { assert (a + b)[k] == a[k]; } else { assert (a + b)[k] == b[k - |a|]; }
    }
  }

  /**
   Splitting on `c` and joining with `d` replaces each `c` by `d`; with
   `d == c` it gives back the original text.
   */
  lemma {:induction false} JoinSplit(s: string, c: char, d: char)
    ensures Join(Split(s, c), [d]) == Replace(s, c, d)
    decreases |s|
  {
    if c !in s {
      assert Replace(s, c, d) == s;
    } else {
      var i := IndexOf(s, c);
      var rest := s[i + 1..];
      var tail := Split(rest, c);
      assert Split(s, c) == [s[..i]] + tail;
      assert Join(Split(s, c), [d]) == s[..i] + [d] + Join(tail, [d]);
      JoinSplit(rest, c, d);
      assert s == s[..i] + [c] + rest;
      ReplaceAtSeparator(s[..i], rest, c, d);
    }
  }

  /** Replacing in `a + [c] + b`, with no `c` in `a`, leaves `a`, puts `d` for the `c` and replaces in `b`. */
  lemma ReplaceAtSeparator(a: string, b: string, c: char, d: char)
    requires c !in a
    ensures Replace(a + [c] + b, c, d) == a + [d] + Replace(b, c, d)
  {
    ReplaceAppend(a + [c], b, c, d);
    ReplaceAppend(a, [c], c, d);
    assert Replace(a, c, d) == a;
    assert Replace([c], c, d) == [d];
  }

  /** Splitting at `c` and joining with `c` again gives back the text. */
  lemma {:induction false} JoinOfSplit(s: string, c: char)
    ensures Join(Split(s, c), [c]) == s
  {
    JoinSplit(s, c, c);
    assert Replace(s, c, c) == s;
  }

  /** Rust's `s.split(c).next()`: the text before the first `c`, or all of `s`. */
  function Before(s: string, c: char): (r: string)
    ensures r <= s
    ensures c !in r
    ensures r == s || (|r| < |s| && s[|r|] == c)
  {
    Split(s, c)[0]
  }

  /** The text before the first `c` of `a + [c] + b` is `a` when `a` holds no `c`. */
  lemma BeforeAfter(a: string, c: char, b: string)
    requires c !in a
    ensures Before(a + [c] + b, c) == a
  {
    SplitAfter(a, c, b);
  }

  /**
   Rust's `s.split(c).nth(1)`: the text after the first `c` up to the next
   `c` or the end, and nothing when `s` holds no `c`.
   */
  function SecondField(s: string, c: char): (r: Option<string>)
    ensures r.None? <==> c !in s
    ensures r.Some? ==> c in s && r.value == Before(s[IndexOf(s, c) + 1..], c)
  {
    var parts := Split(s, c);
    if |parts| >= 2 then Some(parts[1]) else None
  }

  /** Rust's `s.ends_with(suffix)`. */
  predicate EndsWith(s: string, suffix: string)
  {
    |suffix| <= |s| && s[|s| - |suffix|..] == suffix
  }

  /** Text in front does not change how a string ends. */
  lemma EndsWithPrepend(a: string, b: string, suffix: string)
    requires EndsWith(b, suffix)
    ensures EndsWith(a + b, suffix)
  {
    assert (a + b)[|a + b| - |suffix|..] == b[|b| - |suffix|..];
  }

  /** Rust's `char::is_whitespace`: the Unicode White_Space property. */
  predicate IsWhitespace(c: char)
  {
    || c == ' '
    || '\t' <= c <= '\r'
    || c == '\U{0085}' || c == '\U{00A0}' || c == '\U{1680}'
    || '\U{2000}' <= c <= '\U{200A}'
    || c == '\U{2028}' || c == '\U{2029}' || c == '\U{202F}'
    || c == '\U{205F}' || c == '\U{3000}'
  }

  /** `s` begins with a whitespace character. */
  predicate HasLeadingSpace(s: string)
  {
    |s| > 0 && IsWhitespace(s[0])
  }

  /** `s` ends with a whitespace character. */
  predicate HasTrailingSpace(s: string)
  {
    |s| > 0 && IsWhitespace(s[|s| - 1])
  }

  /**
   Rust's `trim()`: leading whitespace is dropped one character at a time,
   then trailing whitespace.
   */
  function Trim(s: string): (r: string)
    ensures !HasLeadingSpace(r) && !HasTrailingSpace(r)
    decreases |s|
  {
    if HasLeadingSpace(s) then Trim(s[1..])
    else if HasTrailingSpace(s) then Trim(s[..|s| - 1])
    else s
  }

  /** `r` is `s[i..i + |r|]` and only whitespace of `s` lies outside it. */
  predicate Trimmed(s: string, r: string, i: int)
  {
    && 0 <= i && i + |r| <= |s|
    && r == s[i..i + |r|]
    && (forall k :: 0 <= k < i ==> IsWhitespace(s[k]))
    && (forall k :: i + |r| <= k < |s| ==> IsWhitespace(s[k]))
  }

  /** A trimmed slice of `s[1..]` is one of `s` when `s` starts with whitespace. */
  lemma TrimmedPastLeading(s: string, r: string, i: int)
    requires HasLeadingSpace(s) && Trimmed(s[1..], r, i)
    ensures Trimmed(s, r, i + 1)
  {
    var rest := s[1..];
    assert rest[i..i + |r|] == s[i + 1..i + 1 + |r|];
    forall k | 0 <= k < i + 1
      ensures IsWhitespace(s[k])
    {
      if k > 0 { assert s[k] == rest[k - 1]; }
    }
    forall k | i + 1 + |r| <= k < |s|
      ensures IsWhitespace(s[k])
    {
      assert s[k] == rest[k - 1];
    }
  }

  /** A trimmed slice of `s` without its last character is one of `s` when `s` ends with whitespace. */
  lemma TrimmedPastTrailing(s: string, r: string, i: int)
    requires HasTrailingSpace(s) && Trimmed(s[..|s| - 1], r, i)
    ensures Trimmed(s, r, i)
  {
    var rest := s[..|s| - 1];
    assert rest[i..i + |r|] == s[i..i + |r|];
    forall k | 0 <= k < i
      ensures IsWhitespace(s[k])
    {
      assert s[k] == rest[k];
    }
    forall k | i + |r| <= k < |s|
      ensures IsWhitespace(s[k])
    {
      if k < |s| - 1 { assert s[k] == rest[k]; }
    }
  }

  /** `trim()` removes exactly a whitespace prefix and a whitespace suffix. */
  lemma {:induction false} TrimSlice(s: string)
    ensures exists i :: Trimmed(s, Trim(s), i)
    decreases |s|
  {
    if HasLeadingSpace(s) {
      TrimSlice(s[1..]);
      var i :| Trimmed(s[1..], Trim(s), i);
      TrimmedPastLeading(s, Trim(s), i);
    } else if HasTrailingSpace(s) {
      TrimSlice(s[..|s| - 1]);
      var i :| Trimmed(s[..|s| - 1], Trim(s), i);
      TrimmedPastTrailing(s, Trim(s), i);
    } else {
      assert Trim(s) == s && s[0..|s|] == s;
      assert Trimmed(s, Trim(s), 0);
    }
  }

  /** Text that starts and ends with a non-whitespace character is left alone by `trim()`. */
  lemma TrimKeepsTrimmed(s: string)
    requires !HasLeadingSpace(s) && !HasTrailingSpace(s)
    ensures Trim(s) == s
  {
  }

  /** A line whose last character is a carriage return. */
  predicate EndsWithCr(l: string)
  {
    |l| > 0 && l[|l| - 1] == '\r'
  }

  /** Drops one trailing carriage return, as `lines()` does for a `\r\n` ending. */
  function StripCr(l: string): (r: string)
    ensures r <= l
    ensures EndsWithCr(l) ==> |r| == |l| - 1
    ensures !EndsWithCr(l) ==> r == l
  {
    if EndsWithCr(l) then l[..|l| - 1] else l
  }

  /**
   Rust's `str::lines()`: split at `\n`, drop one `\r` before each `\n`, and
   yield no final empty line when the text ends in `\n`. A final line with no
   `\n` keeps any trailing `\r`.
   */
  function Lines(s: string): (ls: seq<string>)
    ensures ls == [] <==> s == ""
    ensures forall k :: 0 <= k < |ls| ==> '\n' !in ls[k]
    decreases |s|
  {
    if s == "" then []
    else if '\n' !in s then [s]
    else
      var i := IndexOf(s, '\n');
      [StripCr(s[..i])] + Lines(s[i + 1..])
  }

  /** A text line followed by a newline contributes exactly that line. */
  lemma LinesCons(a: string, b: string)
    requires '\n' !in a
    ensures Lines(a + "\n" + b) == [StripCr(a)] + Lines(b)
  {
    var s := a + "\n" + b;
    IndexOfAfter(a, '\n', b);
    assert s[..|a|] == a;
    assert s[|a| + 1..] == b;
  }

  /** Lines that survive a round trip through `Lines`: no newline inside and no trailing `\r`. */
  predicate PlainLines(ls: seq<string>)
  {
    forall k :: 0 <= k < |ls| ==> '\n' !in ls[k] && !EndsWithCr(ls[k])
  }

  /**
   Joining lines with single newlines and splitting the result again gives
   the lines back, provided the last one is not empty (an empty last line
   leaves a trailing newline, which `lines()` does not report). The last
   line may end in `\r` because nothing follows it.
   */
  lemma {:induction false} LinesOfJoin(ls: seq<string>)
    requires forall k :: 0 <= k < |ls| ==> '\n' !in ls[k]
    requires forall k :: 0 <= k < |ls| - 1 ==> !EndsWithCr(ls[k])
    requires |ls| > 0 ==> ls[|ls| - 1] != ""
    ensures Lines(Join(ls, "\n")) == ls
    decreases |ls|
  {
    if |ls| == 1 {
      assert Join(ls, "\n") == ls[0];
      assert Lines(ls[0]) == [ls[0]];
    } else if |ls| > 1 {
      var tail := ls[1..];
      assert ls == [ls[0]] + tail;
      LinesOfJoinCons(ls[0], tail);
      LinesOfJoin(tail);
    }
  }

  /** One plain line in front of joined lines becomes their first line. */
  lemma LinesOfJoinCons(a: string, tail: seq<string>)
    requires '\n' !in a && !EndsWithCr(a) && |tail| > 0
    ensures Lines(Join([a] + tail, "\n")) == [a] + Lines(Join(tail, "\n"))
  {
    assert ([a] + tail)[1..] == tail;
    assert Join([a] + tail, "\n") == a + "\n" + Join(tail, "\n");
    LinesCons(a, Join(tail, "\n"));
  }

  /**
   What `lines()` makes of lines that were joined by newlines: one trailing
   `\r` dropped from every line but the last.
   */
  function StripCrButLast(ls: seq<string>): seq<string>
    decreases |ls|
  {
    if |ls| <= 1 then ls else [StripCr(ls[0])] + StripCrButLast(ls[1..])
  }

  /** `StripCrButLast` keeps the number of lines, drops one `\r` from each but the last and keeps the last. */
  lemma {:induction false} StripCrButLastAt(ls: seq<string>)
    ensures |StripCrButLast(ls)| == |ls|
    ensures forall k :: 0 <= k < |ls| - 1 ==> StripCrButLast(ls)[k] == StripCr(ls[k])
    ensures |ls| > 0 ==> StripCrButLast(ls)[|ls| - 1] == ls[|ls| - 1]
    decreases |ls|
  {
    if |ls| > 1 {
      var tail := ls[1..];
      StripCrButLastAt(tail);
      var r := StripCrButLast(ls);
      assert r == [StripCr(ls[0])] + StripCrButLast(tail);
      forall k | 1 <= k < |ls| - 1
        ensures r[k] == StripCr(ls[k])
      {
        assert r[k] == StripCrButLast(tail)[k - 1] && tail[k - 1] == ls[k];
      }
      assert r[|ls| - 1] == StripCrButLast(tail)[|tail| - 1] == tail[|tail| - 1];
    }
  }

  /**
   Newline-free lines joined by single newlines, the last one non-empty,
   read back one for one, each but the last with one trailing `\r` dropped.
   */
  lemma {:induction false} LinesOfJoinStripsCr(ls: seq<string>)
    requires forall k :: 0 <= k < |ls| ==> '\n' !in ls[k]
    requires |ls| > 0 ==> ls[|ls| - 1] != ""
    ensures Lines(Join(ls, "\n")) == StripCrButLast(ls)
    decreases |ls|
  {
    if |ls| == 1 {
      LinesOfOneLine(ls);
    } else if |ls| > 1 {
      LinesOfJoinStripsCr(ls[1..]);
      LinesOfJoinFirst(ls);
    }
  }

  /** A single non-empty line without newline is read back as itself. */
  lemma LinesOfOneLine(ls: seq<string>)
    requires |ls| == 1 && '\n' !in ls[0] && ls[0] != ""
    ensures Lines(Join(ls, "\n")) == ls
  {
    assert Join(ls, "\n") == ls[0];
  }

  /**
   The first of several joined lines is read back with one trailing `\r`
   dropped, in front of what the later lines read back as.
   */
  lemma LinesOfJoinFirst(ls: seq<string>)
    requires |ls| > 1 && '\n' !in ls[0]
    requires Lines(Join(ls[1..], "\n")) == StripCrButLast(ls[1..])
    ensures Lines(Join(ls, "\n")) == StripCrButLast(ls)
  {
    assert Join(ls, "\n") == ls[0] + "\n" + Join(ls[1..], "\n");
    LinesCons(ls[0], Join(ls[1..], "\n"));
  }

  /** Two plain lines in front of a text become its first two lines. */
  lemma LinesTwo(a: string, b: string, rest: string)
    requires '\n' !in a && '\n' !in b && StripCr(a) == a && StripCr(b) == b
    ensures Lines(a + "\n" + (b + "\n" + rest)) == [a, b] + Lines(rest)
  {
    LinesCons(b, rest);
    LinesCons(a, b + "\n" + rest);
  }

  /** A text made of the given lines, each ending in a newline. */
  function Unlines(ls: seq<string>): string
  {
    if |ls| == 0 then "" else ls[0] + "\n" + Unlines(ls[1..])
  }

  /** Text in which every line ends in a newline splits back into its lines, empty ones included. */
  lemma {:induction false} LinesOfUnlines(ls: seq<string>)
    requires PlainLines(ls)
    ensures Lines(Unlines(ls)) == ls
    decreases |ls|
  {
    if |ls| > 0 {
      LinesCons(ls[0], Unlines(ls[1..]));
      LinesOfUnlines(ls[1..]);
      assert ls == [ls[0]] + ls[1..];
    }
  }

  /** `i` is the first position in `lines` whose line starts with `prefix`. */
  predicate IsFirstMatch(lines: seq<string>, prefix: string, i: int)
  {
    && 0 <= i < |lines|
    && prefix <= lines[i]
    && forall j :: 0 <= j < i ==> !(prefix <= lines[j])
  }

  /** The scan `for line in lines { if let Some(_) = line.strip_prefix(prefix) { .. } }`. */
  function FirstWithPrefix(lines: seq<string>, prefix: string): (r: Option<nat>)
    ensures r.Some? ==> IsFirstMatch(lines, prefix, r.value)
    ensures r.None? <==> forall j :: 0 <= j < |lines| ==> !(prefix <= lines[j])
  {
    if |lines| == 0 then None
    else if prefix <= lines[0] then Some(0)
    else
      match FirstWithPrefix(lines[1..], prefix)
      case None => None
      case Some(i) => Some(i + 1)
  }

  /** There is only one first match. */
  lemma FirstMatchUnique(lines: seq<string>, prefix: string, i: int, j: int)
    requires IsFirstMatch(lines, prefix, i) && IsFirstMatch(lines, prefix, j)
    ensures i == j
  {
  }

  /** Lines after the first match never change which line is found. */
  lemma {:induction false} FirstWithPrefixAppend(lines: seq<string>, more: seq<string>, prefix: string)
    requires FirstWithPrefix(lines, prefix).Some?
    ensures FirstWithPrefix(lines + more, prefix) == FirstWithPrefix(lines, prefix)
  {
    var i := FirstWithPrefix(lines, prefix).value;
    assert forall k :: 0 <= k < |lines| ==> (lines + more)[k] == lines[k];
    assert IsFirstMatch(lines + more, prefix, i);
    FirstMatchUnique(lines + more, prefix, i, FirstWithPrefix(lines + more, prefix).value);
  }
}
