/** The handful of Python string operations the backup policy relies on:
    `s.split(c)` with a one-character separator, `c.join(pieces)`,
    `s.split()` (simplified to splitting on spaces), `s.rstrip("\n")`,
    `s.startswith(p)` / `s.endswith(p)` and `sorted` on strings. */
module Strings {

  /** Number of occurrences of `c` in `s`. */
  function Count(s: string, c: char): nat
  {
    if |s| == 0 then 0 else (if s[0] == c then 1 else 0) + Count(s[1..], c)
  }

  /** `s.split(sep)`: the pieces between separators, never fewer than one. */
  function Split(s: string, sep: char): (pieces: seq<string>)
    ensures |pieces| == Count(s, sep) + 1
    ensures forall i :: 0 <= i < |pieces| ==> sep !in pieces[i]
    decreases |s|
  {
    if |s| == 0 then [""]
    else
      var rest := Split(s[1..], sep);
      if s[0] == sep then [""] + rest
      else
        assert forall i :: 1 <= i < |rest| ==> sep !in rest[i];
        [[s[0]] + rest[0]] + rest[1..]
  }

  /** `sep.join(pieces)`. */
  function Join(pieces: seq<string>, sep: char): string
  {
    if |pieces| == 0 then ""
    else if |pieces| == 1 then pieces[0]
    else pieces[0] + [sep] + Join(pieces[1..], sep)
  }

  /** Gluing a character onto the first piece glues it onto the joined string. */
  lemma JoinCons(c: char, pieces: seq<string>, sep: char)
    requires |pieces| >= 1
    ensures Join([[c] + pieces[0]] + pieces[1..], sep) == [c] + Join(pieces, sep)
  {
    var glued := [[c] + pieces[0]] + pieces[1..];
    if |pieces| > 1 {
      assert glued[1..] == pieces[1..];
    }
  }

  /** A character found in no piece, and other than the separator, is not in
      the joined string. */
  lemma {:induction false} JoinAvoids(pieces: seq<string>, sep: char, c: char)
    requires c != sep
    requires forall i :: 0 <= i < |pieces| ==> c !in pieces[i]
    ensures c !in Join(pieces, sep)
    decreases |pieces|
  {
    if |pieces| > 1 {
      JoinAvoids(pieces[1..], sep, c);
    }
  }

  /** Joining the pieces of a split gives back the original string. */
  lemma {:induction false} JoinSplit(s: string, sep: char)
    ensures Join(Split(s, sep), sep) == s
    decreases |s|
  {
    if |s| > 0 {
      JoinSplit(s[1..], sep);
      var rest := Split(s[1..], sep);
      if s[0] == sep {
        assert Split(s, sep) == [""] + rest;
        assert ([""] + rest)[1..] == rest;
      } else {
        JoinCons(s[0], rest, sep);
      }
      assert s == [s[0]] + s[1..];
    }
  }

  /** Splitting a string whose head holds no separator extends the first piece. */
  lemma {:induction false} SplitPrefix(p: string, t: string, sep: char)
    requires sep !in p
    ensures Split(p + t, sep) == [p + Split(t, sep)[0]] + Split(t, sep)[1..]
    decreases |p|
  {
    if |p| > 0 {
      SplitPrefix(p[1..], t, sep);
      var st := Split(t, sep);
      var rest := Split(p[1..] + t, sep);
      assert (p + t)[0] == p[0] && (p + t)[1..] == p[1..] + t;
      assert rest[0] == p[1..] + st[0] && rest[1..] == st[1..];
      assert [p[0]] + rest[0] == p + st[0];
    } else {
      var st := Split(t, sep);
      assert p + t == t && p + st[0] == st[0];
      assert st == [st[0]] + st[1..];
    }
  }

  /** A string without the separator splits into itself alone. */
  lemma SplitNoSeparator(s: string, sep: char)
    requires sep !in s
    ensures Split(s, sep) == [s]
  {
    SplitPrefix(s, "", sep);
    assert s + "" == s;
  }

  /** Splitting joined pieces that hold no separator gives back the pieces. */
  lemma {:induction false} SplitJoin(pieces: seq<string>, sep: char)
    requires |pieces| >= 1
    requires forall i :: 0 <= i < |pieces| ==> sep !in pieces[i]
    ensures Split(Join(pieces, sep), sep) == pieces
    decreases |pieces|
  {
    if |pieces| == 1 {
      SplitNoSeparator(pieces[0], sep);
    } else {
      var tail := Join(pieces[1..], sep);
      SplitJoin(pieces[1..], sep);
      assert ([sep] + tail)[1..] == tail;
      assert Split([sep] + tail, sep) == [""] + pieces[1..];
      SplitPrefix(pieces[0], [sep] + tail, sep);
      assert pieces[0] + "" == pieces[0];
      assert pieces[0] + [sep] + tail == pieces[0] + ([sep] + tail);
      assert pieces == [pieces[0]] + pieces[1..];
    }
  }

  /** The non-empty pieces, in order. */
  function NonEmpty(pieces: seq<string>): (r: seq<string>)
    ensures forall i :: 0 <= i < |r| ==> r[i] != "" && r[i] in pieces
  {
    if |pieces| == 0 then []
    else if pieces[0] == "" then NonEmpty(pieces[1..])
    else [pieces[0]] + NonEmpty(pieces[1..])
  }

  /** Dropping the empty pieces keeps every other piece as often as it
      occurs. */
  lemma {:induction false} NonEmptyKeeps(pieces: seq<string>)
    ensures forall x :: x != "" ==> multiset(NonEmpty(pieces))[x] == multiset(pieces)[x]
    decreases |pieces|
  {
    if |pieces| > 0 {
      var rest := NonEmpty(pieces[1..]);
      NonEmptyKeeps(pieces[1..]);
      assert pieces == [pieces[0]] + pieces[1..];
      assert multiset(pieces) == multiset{pieces[0]} + multiset(pieces[1..]);
      if pieces[0] != "" {
        assert NonEmpty(pieces) == [pieces[0]] + rest;
        assert multiset(NonEmpty(pieces)) == multiset{pieces[0]} + multiset(rest);
      }
    }
  }

  /** Pieces that are all non-empty are kept as they are. */
  lemma {:induction false} NonEmptyUnchanged(pieces: seq<string>)
    requires forall i :: 0 <= i < |pieces| ==> pieces[i] != ""
    ensures NonEmpty(pieces) == pieces
    decreases |pieces|
  {
    if |pieces| > 0 {
      NonEmptyUnchanged(pieces[1..]);
      assert pieces == [pieces[0]] + pieces[1..];
    }
  }

  /** `s.split()`, simplified: runs of spaces separate the words. */
  function Words(s: string): (words: seq<string>)
    ensures forall i :: 0 <= i < |words| ==> words[i] != "" && ' ' !in words[i]
  {
    NonEmpty(Split(s, ' '))
  }

  /** Non-empty words without spaces, joined by single spaces, are read back
      as they are. */
  lemma WordsJoin(words: seq<string>)
    requires forall i :: 0 <= i < |words| ==> words[i] != "" && ' ' !in words[i]
    ensures Words(Join(words, ' ')) == words
  {
    if |words| == 0 {
      assert Split("", ' ') == [""];
    } else {
      SplitJoin(words, ' ');
      NonEmptyUnchanged(words);
    }
  }

  /** `s.rstrip("\n")`: the longest prefix of `s` that does not end in a newline
      and after which only newlines follow. */
  function RStripNewlines(s: string): (r: string)
    ensures r <= s
    ensures |r| == 0 || r[|r| - 1] != '\n'
    ensures forall i :: |r| <= i < |s| ==> s[i] == '\n'
    decreases |s|
  {
    if |s| > 0 && s[|s| - 1] == '\n' then RStripNewlines(s[..|s| - 1]) else s
  }

  /** A string holding no newline is left alone by `rstrip("\n")`, with or
      without one trailing newline. */
  lemma RStripOneNewline(s: string)
    requires '\n' !in s
    ensures RStripNewlines(s) == s
    ensures RStripNewlines(s + "\n") == s
  {
    assert (s + "\n")[..|s|] == s;
  }

  /** `s.startswith(p)`. */
  predicate StartsWith(s: string, p: string)
  {
    p <= s
  }

  /** `s.endswith(p)`. */
  predicate EndsWith(s: string, p: string)
  {
    |p| <= |s| && s[|s| - |p|..] == p
  }

  /** A string ends with the last character of each non-empty suffix it has. */
  lemma EndsWithLast(s: string, p: string)
    ensures EndsWith(s, p) && |p| > 0 ==> s[|s| - 1] == p[|p| - 1]
  {
    if EndsWith(s, p) && |p| > 0 {
      assert s[|s| - |p|..][|p| - 1] == s[|s| - 1];
    }
  }

  /** `s[:-len(p)]` for a suffix `p` of `s`. */
  function DropSuffix(s: string, p: string): (r: string)
    requires EndsWith(s, p)
    ensures r + p == s
  {
    s[..|s| - |p|]
  }

  /** Python's `a <= b` on strings: lexicographic by code point, a proper
      prefix before its extensions. */
  predicate LexLe(a: string, b: string)
    decreases |a|
  {
    |a| == 0 || (|b| > 0 && (a[0] < b[0] || (a[0] == b[0] && LexLe(a[1..], b[1..]))))
  }

  lemma {:induction false} LexLeTotal(a: string, b: string)
    ensures LexLe(a, b) || LexLe(b, a)
    decreases |a|
  {
    if |a| > 0 && |b| > 0 && a[0] == b[0] {
      LexLeTotal(a[1..], b[1..]);
    }
  }

  lemma {:induction false} LexLeTransitive(a: string, b: string, c: string)
    requires LexLe(a, b) && LexLe(b, c)
    ensures LexLe(a, c)
    decreases |a|
  {
    if |a| > 0 && a[0] == b[0] && b[0] == c[0] {
      LexLeTransitive(a[1..], b[1..], c[1..]);
    }
  }

  predicate Sorted(s: seq<string>)
  {
    forall i, j :: 0 <= i < j < |s| ==> LexLe(s[i], s[j])
  }

  /** Insert `x` before the first element it does not exceed. */
  function InsertSorted(x: string, s: seq<string>): seq<string>
  {
    if |s| == 0 then [x]
    else if LexLe(x, s[0]) then [x] + s
    else [s[0]] + InsertSorted(x, s[1..])
  }

  /** `sorted(s)`, as an insertion sort. */
  function Sort(s: seq<string>): seq<string>
  {
    if |s| == 0 then [] else InsertSorted(s[0], Sort(s[1..]))
  }

  /** Inserting keeps every element and adds `x` once. */
  lemma {:induction false} InsertSortedPermutes(x: string, s: seq<string>)
    ensures multiset(InsertSorted(x, s)) == multiset(s) + multiset{x}
    decreases |s|
  {
    if |s| > 0 {
      assert s == [s[0]] + s[1..];
      if !LexLe(x, s[0]) {
        InsertSortedPermutes(x, s[1..]);
      }
    }
  }

  /** A lower bound of `x` and of every element of `s` bounds the insertion. */
  lemma InsertSortedBound(y: string, x: string, s: seq<string>)
    requires LexLe(y, x)
    requires forall k :: 0 <= k < |s| ==> LexLe(y, s[k])
    ensures forall k :: 0 <= k < |InsertSorted(x, s)| ==> LexLe(y, InsertSorted(x, s)[k])
  {
    var t := InsertSorted(x, s);
    InsertSortedPermutes(x, s);
    forall k | 0 <= k < |t| ensures LexLe(y, t[k]) {
      assert t[k] in multiset(t);
      assert t[k] == x || t[k] in multiset(s);
    }
  }

  lemma {:induction false} InsertSortedSorted(x: string, s: seq<string>)
    requires Sorted(s)
    ensures Sorted(InsertSorted(x, s))
    decreases |s|
  {
    if |s| == 0 {
    } else if LexLe(x, s[0]) {
      forall j | 0 < j < |s| ensures LexLe(x, s[j]) {
        LexLeTransitive(x, s[0], s[j]);
      }
    } else {
      LexLeTotal(x, s[0]);
      var t := InsertSorted(x, s[1..]);
      InsertSortedSorted(x, s[1..]);
      InsertSortedBound(s[0], x, s[1..]);
      var r := [s[0]] + t;
      forall i, j | 0 <= i < j < |r| ensures LexLe(r[i], r[j]) {
        if i > 0 { assert r[i] == t[i - 1] && r[j] == t[j - 1]; }
        else { assert r[j] == t[j - 1]; }
      }
    }
  }

  /** The sorted list is ordered and holds exactly the input's elements. */
  lemma {:induction false} SortCorrect(s: seq<string>)
    ensures Sorted(Sort(s))
    ensures multiset(Sort(s)) == multiset(s)
    decreases |s|
  {
    if |s| > 0 {
      SortCorrect(s[1..]);
      InsertSortedSorted(s[0], Sort(s[1..]));
      InsertSortedPermutes(s[0], Sort(s[1..]));
      assert s == [s[0]] + s[1..];
    }
  }
}
