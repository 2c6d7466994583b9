/** The handful of Python string operations the phonebook relies on:
    `str.isspace`, `str.strip()`, `str.split(sep)`, `sep.join(parts)`,
    `str.lower()`, the substring test `a in b`, and the way iterating over a
    text file yields its lines. */
module Text {

  /** Python's `str.isspace` on one character: exactly the characters that
      `str.strip()` with no argument removes. */
  predicate IsSpace(c: char) {
    || ('\t' <= c <= '\r')
    || ('\U{1C}' <= c <= '\U{1F}')
    || c == ' '
    || c == '\U{85}'
    || c == '\U{A0}'
    || c == '\U{1680}'
    || ('\U{2000}' <= c <= '\U{200A}')
    || c == '\U{2028}'
    || c == '\U{2029}'
    || c == '\U{202F}'
    || c == '\U{205F}'
    || c == '\U{3000}'
  }

  /** `s.lstrip()`: the longest suffix of `s` that does not start with whitespace. */
  function TrimLeft(s: string): (r: string)
    ensures |r| <= |s| && r == s[|s| - |r|..]
    ensures forall i :: 0 <= i < |s| - |r| ==> IsSpace(s[i])
    ensures r == [] || !IsSpace(r[0])
  {
    if s != [] && IsSpace(s[0]) then TrimLeft(s[1..]) else s
  }

  /** `s.rstrip()`: the longest prefix of `s` that does not end with whitespace. */
  function TrimRight(s: string): (r: string)
    ensures |r| <= |s| && r == s[..|r|]
    ensures forall i :: |r| <= i < |s| ==> IsSpace(s[i])
    ensures r == [] || !IsSpace(r[|r| - 1])
  {
    if s != [] && IsSpace(s[|s| - 1]) then TrimRight(s[..|s| - 1]) else s
  }

  /** `s.strip()`: `s` with its leading and trailing whitespace removed. */
  function Strip(s: string): (r: string)
    ensures r == [] || (!IsSpace(r[0]) && !IsSpace(r[|r| - 1]))
    ensures s == [] || (!IsSpace(s[0]) && !IsSpace(s[|s| - 1])) ==> r == s
    ensures exists i, j :: 0 <= i <= j <= |s| && r == s[i..j] && SpaceOutside(s, i, j)
  {
    var t := TrimLeft(s);
    var r := TrimRight(t);
    SliceOfSlice(s, t, r);
    r
  }

  /** Every character of `s` before index `i` and from index `j` on is whitespace. */
  predicate SpaceOutside(s: string, i: nat, j: nat) {
    && (forall k :: 0 <= k < i && k < |s| ==> IsSpace(s[k]))
    && (forall k :: j <= k < |s| ==> IsSpace(s[k]))
  }

  /** A whitespace-trimmed prefix of a whitespace-trimmed suffix is a slice with
      only whitespace outside it. */
  lemma SliceOfSlice(s: string, t: string, r: string)
    requires |t| <= |s| && t == s[|s| - |t|..]
    requires forall k :: 0 <= k < |s| - |t| ==> IsSpace(s[k])
    requires |r| <= |t| && r == t[..|r|]
    requires forall k :: |r| <= k < |t| ==> IsSpace(t[k])
    ensures var i := |s| - |t|; r == s[i..i + |r|] && SpaceOutside(s, i, i + |r|)
  {
    var i := |s| - |t|;
    forall k | i + |r| <= k < |s|
      ensures IsSpace(s[k])
    {
      assert s[k] == t[k - i];
    }
  }

  /** How many times `c` occurs in `s`: Python's `s.count(c)`. */
  function Count(s: string, c: char): nat
  {
    if s == [] then 0 else (if s[0] == c then 1 else 0) + Count(s[1..], c)
  }

  /** Occurrences in a concatenation add up. */
  lemma {:induction false} CountAppend(a: string, b: string, c: char)
    ensures Count(a + b, c) == Count(a, c) + Count(b, c)
    decreases |a|
  {
    if a == [] {
      assert a + b == b;
    } else {
      assert (a + b)[0] == a[0] && (a + b)[1..] == a[1..] + b;
      CountAppend(a[1..], b, c);
    }
  }

  /** A character occurs in a string exactly when it occurs at least once. */
  lemma {:induction false} CountPositive(s: string, c: char)
    ensures Count(s, c) > 0 <==> c in s
    decreases |s|
  {
    if s != [] {
      CountPositive(s[1..], c);
      assert s == [s[0]] + s[1..];
    }
  }

  /** Stripping never adds an occurrence of a character. */
  lemma StripCount(s: string, c: char)
    ensures Count(Strip(s), c) <= Count(s, c)
  {
    TrimLeftCount(s, c);
    TrimRightCount(TrimLeft(s), c);
  }

  lemma {:induction false} TrimLeftCount(s: string, c: char)
    ensures Count(TrimLeft(s), c) <= Count(s, c)
    decreases |s|
  {
    if s != [] && IsSpace(s[0]) {
      TrimLeftCount(s[1..], c);
    }
  }

  lemma {:induction false} TrimRightCount(s: string, c: char)
    ensures Count(TrimRight(s), c) <= Count(s, c)
    decreases |s|
  {
    if s != [] && IsSpace(s[|s| - 1]) {
      TrimRightCount(s[..|s| - 1], c);
      assert s == s[..|s| - 1] + [s[|s| - 1]];
      CountAppend(s[..|s| - 1], [s[|s| - 1]], c);
    }
  }

  /** Stripping a line made of a body and a line break gives the body back,
      when the body neither starts nor ends with whitespace. */
  lemma StripTerminated(body: string)
    requires body != [] && !IsSpace(body[0]) && !IsSpace(body[|body| - 1])
    ensures Strip(body + "\n") == body
  {
    var x := body + "\n";
    assert TrimLeft(x) == x;
    assert x[..|x| - 1] == body;
    assert TrimRight(x) == TrimRight(body) == body;
  }

  /** Index of the first occurrence of `c` in `s`. */
  function IndexOf(s: string, c: char): (k: nat)
    requires c in s
    ensures k < |s| && s[k] == c && c !in s[..k]
  {
    if s[0] == c then 0 else 1 + IndexOf(s[1..], c)
  }

  /** `sep.join(parts)`: the parts with one separator between neighbours. */
  function Join(parts: seq<string>, sep: char): string
  {
    if parts == [] then []
    else if |parts| == 1 then parts[0]
    else parts[0] + [sep] + Join(parts[1..], sep)
  }

  /** `s.split(sep)`: the pieces between occurrences of `sep`. Python never
      returns an empty list here; `"".split(sep)` is `[""]`. */
  function Split(s: string, sep: char): (parts: seq<string>)
    ensures |parts| >= 1
    ensures forall i :: 0 <= i < |parts| ==> sep !in parts[i]
    ensures Join(parts, sep) == s
    decreases |s|
  {
    if sep !in s then [s]
    else
      var k := IndexOf(s, sep);
      var rest := Split(s[k + 1..], sep);
      assert ([s[..k]] + rest)[1..] == rest;
      assert s == s[..k] + [sep] + s[k + 1..];
      [s[..k]] + rest
  }

  /** The first `c` in `a + [c] + b` is the one after `a`, when `a` holds none. */
  lemma IndexAfterPrefix(a: string, c: char, b: string)
    requires c !in a
    ensures c in a + [c] + b && IndexOf(a + [c] + b, c) == |a|
  {
    var s := a + [c] + b;
    assert s[|a|] == c;
    var k := IndexOf(s, c);
    assert s[..|a|] == a;
  }

  /** Splitting at the first separator: the piece before it, then the split of the rest. */
  lemma SplitCons(a: string, sep: char, b: string)
    requires sep !in a
    ensures Split(a + [sep] + b, sep) == [a] + Split(b, sep)
  {
    var s := a + [sep] + b;
    IndexAfterPrefix(a, sep, b);
    assert s[..|a|] == a;
    assert s[|a| + 1..] == b;
  }

  /** Splitting a join gives the parts back, as long as no part holds the separator. */
  lemma {:induction false} SplitJoin(parts: seq<string>, sep: char)
    requires |parts| >= 1
    requires forall i :: 0 <= i < |parts| ==> sep !in parts[i]
    ensures Split(Join(parts, sep), sep) == parts
    decreases |parts|
  {
    if |parts| > 1 {
      SplitCons(parts[0], sep, Join(parts[1..], sep));
      SplitJoin(parts[1..], sep);
      assert parts == [parts[0]] + parts[1..];
    }
  }

  /** A join of separator-free parts holds one separator fewer than it has parts. */
  lemma {:induction false} JoinCount(parts: seq<string>, sep: char)
    requires |parts| >= 1
    requires forall i :: 0 <= i < |parts| ==> sep !in parts[i]
    ensures Count(Join(parts, sep), sep) == |parts| - 1
    decreases |parts|
  {
    CountPositive(parts[0], sep);
    if |parts| > 1 {
      JoinCount(parts[1..], sep);
      CountAppend(parts[0] + [sep], Join(parts[1..], sep), sep);
      CountAppend(parts[0], [sep], sep);
    }
  }

  /** `s.split(sep)` has one more piece than `s` has separators. */
  lemma SplitCount(s: string, sep: char)
    ensures |Split(s, sep)| == Count(s, sep) + 1
  {
    JoinCount(Split(s, sep), sep);
  }

  /** Joining a prefix of the parts gives a prefix of the whole join; when
      parts are left over, the separator before them follows that prefix. */
  lemma {:induction false} JoinPrefix(parts: seq<string>, sep: char, n: nat)
    requires 1 <= n <= |parts|
    ensures Join(parts[..n], sep) <= Join(parts, sep)
    ensures n < |parts| ==> Join(parts[..n], sep) + [sep] <= Join(parts, sep)
    decreases n
  {
    if n == |parts| {
      assert parts[..n] == parts;
    } else if n == 1 {
      assert Join(parts, sep) == parts[0] + [sep] + Join(parts[1..], sep);
    } else {
      var head := parts[0] + [sep];
      var prefix := Join(parts[1..][..n - 1], sep);
      var rest := Join(parts[1..], sep);
      JoinPrefix(parts[1..], sep, n - 1);
      assert parts[..n][1..] == parts[1..][..n - 1];
      assert Join(parts[..n], sep) == head + prefix;
      assert Join(parts, sep) == head + rest;
      assert rest == prefix + [sep] + rest[|prefix| + 1..];
      assert head + rest == head + prefix + [sep] + rest[|prefix| + 1..];
    }
  }

  /** A character that is not the separator and occurs in no part does not occur in the join. */
  lemma {:induction false} JoinExcludes(parts: seq<string>, sep: char, c: char)
    requires c != sep
    requires forall i :: 0 <= i < |parts| ==> c !in parts[i]
    ensures c !in Join(parts, sep)
    decreases |parts|
  {
    if |parts| > 1 {
      JoinExcludes(parts[1..], sep, c);
    }
  }

  /** Concatenation of a sequence of strings. */
  function Concat(ss: seq<string>): string
  {
    if ss == [] then [] else ss[0] + Concat(ss[1..])
  }

  /** A line as `for line in file` yields it: non-empty, ending in its line break if it has one. */
  predicate IsTerminatedLine(line: string) {
    IsLine(line) && line[|line| - 1] == '\n'
  }

  /** A non-empty piece of text with no line break before its last character. */
  predicate IsLine(line: string) {
    line != [] && '\n' !in line[..|line| - 1]
  }

  /** The lines that `for line in file` yields from a file whose text is `text`:
      each keeps its `'\n'`, and the last one lacks it when the text does not end in one. */
  function Lines(text: string): (lines: seq<string>)
    ensures Concat(lines) == text
    ensures forall i :: 0 <= i < |lines| ==> IsLine(lines[i])
    ensures forall i :: 0 <= i < |lines| - 1 ==> IsTerminatedLine(lines[i])
    decreases |text|
  {
    if text == [] then []
    else if '\n' !in text then [text]
    else
      var k := IndexOf(text, '\n');
      var line := text[..k + 1];
      var rest := Lines(text[k + 1..]);
      var lines := [line] + rest;
      assert lines[1..] == rest;
      assert forall i :: 1 <= i < |lines| ==> lines[i] == rest[i - 1];
      assert IsTerminatedLine(line) by {
        assert line[..k] == text[..k];
      }
      assert text == line + text[k + 1..];
      lines
  }

  /** Reading back text made of terminated lines yields exactly those lines. */
  lemma {:induction false} LinesConcat(ls: seq<string>)
    requires forall i :: 0 <= i < |ls| ==> IsTerminatedLine(ls[i])
    ensures Lines(Concat(ls)) == ls
    decreases |ls|
  {
    if ls != [] {
      var line := ls[0];
      var text := Concat(ls);
      var rest := Concat(ls[1..]);
      assert text == line + rest;
      assert text[|line| - 1] == '\n';
      var k := IndexOf(text, '\n');
      assert text[..k] == line[..|line| - 1] by {
        assert text[..|line| - 1] == line[..|line| - 1];
      }
      assert k == |line| - 1;
      assert text[..k + 1] == line;
      assert text[k + 1..] == rest;
      LinesConcat(ls[1..]);
      assert ls == [line] + ls[1..];
    }
  }

  /** Python's `str.lower` on one character, for the ASCII capitals `A` to `Z`
      and the basic Cyrillic capitals; every other character is its own lower
      case here. */
  function LowerChar(c: char): char
  {
    if 'A' <= c <= 'Z' then (c as int + 32) as char
    else if '\U{0410}' <= c <= '\U{042F}' then (c as int + 32) as char
    else if '\U{0400}' <= c <= '\U{040F}' then (c as int + 80) as char
    else c
  }

  /** `s.lower()`, character by character. */
  function Lower(s: string): string
  {
    seq(|s|, i requires 0 <= i < |s| => LowerChar(s[i]))
  }

  /** Lowering keeps the length, so only the empty string lowers to the empty string. */
  lemma LowerEmpty(s: string)
    ensures Lower(s) == [] <==> s == []
  {
    assert |Lower(s)| == |s|;
  }

  /** Lowering twice is lowering once: no lowered character is a capital. */
  lemma LowerIdempotent(s: string)
    ensures Lower(Lower(s)) == Lower(s)
  {
    var l := Lower(s);
    forall i | 0 <= i < |s|
      ensures LowerChar(l[i]) == l[i]
    {
      assert l[i] == LowerChar(s[i]);
    }
  }

  /** Python's `needle in hay` on strings: `needle` occurs in `hay` as a contiguous run. */
  predicate IsSubstring(needle: string, hay: string) {
    exists i, j :: 0 <= i <= j <= |hay| && hay[i..j] == needle
  }
}
