/** The Python `str` operations the parsers and command builders rely on,
    with CPython's semantics: `strip`, `startswith`, `in`, `find`, `rfind`,
    `split(sep)`, `split(maxsplit=...)`, `splitlines`, `sep.join`,
    `replace(old, "")`, slicing with negative indexes, and `str(int)`. */
module PyStr {

  /** `c.isspace()`: the characters CPython treats as whitespace. */
  predicate IsSpace(c: char) {
    var n := c as int;
    n == 0x20 || 0x09 <= n <= 0x0D || 0x1C <= n <= 0x1F || n == 0x85 || n == 0xA0
    || n == 0x1680 || 0x2000 <= n <= 0x200A || n == 0x2028 || n == 0x2029
    || n == 0x202F || n == 0x205F || n == 0x3000
  }

  /** The characters at which `str.splitlines()` ends a line. */
  predicate IsLineBreak(c: char) {
    var n := c as int;
    0x0A <= n <= 0x0D || 0x1C <= n <= 0x1E || n == 0x85 || n == 0x2028 || n == 0x2029
  }

  predicate AllSpace(s: string) {
    forall i :: 0 <= i < |s| ==> IsSpace(s[i])
  }

  predicate NoSpace(s: string) {
    forall i :: 0 <= i < |s| ==> !IsSpace(s[i])
  }

  predicate NoLineBreak(s: string) {
    forall i :: 0 <= i < |s| ==> !IsLineBreak(s[i])
  }

  /** Neither the first nor the last character is whitespace. */
  predicate Trimmed(s: string) {
    s == [] || (!IsSpace(s[0]) && !IsSpace(s[|s| - 1]))
  }

  // ---------------------------------------------------------------- strip

  function LStrip(s: string): (r: string)
    ensures |r| <= |s| && r == s[|s| - |r|..]
    ensures r == [] || !IsSpace(r[0])
    ensures AllSpace(s[..|s| - |r|])
  {
    if s != [] && IsSpace(s[0]) then
      var r := LStrip(s[1..]);
      assert s[..|s| - |r|] == [s[0]] + s[1..][..|s| - 1 - |r|];
      r
    else s
  }

  function RStrip(s: string): (r: string)
    ensures |r| <= |s| && r == s[..|r|]
    ensures r == [] || !IsSpace(r[|r| - 1])
    ensures AllSpace(s[|r|..])
  {
    if s != [] && IsSpace(s[|s| - 1]) then
      var t := s[..|s| - 1];
      var r := RStrip(t);
      assert s[|r|..] == t[|r|..] + [s[|s| - 1]];
      r
    else s
  }

  /** `s.strip()`: `s` without its leading and trailing whitespace. */
  function Strip(s: string): (r: string)
    ensures Trimmed(r) && |r| <= |s|
  {
    RStrip(LStrip(s))
  }

  lemma LStripPadded(a: string, s: string)
    requires AllSpace(a) && (s == [] || !IsSpace(s[0]))
    ensures LStrip(a + s) == s
  {
    if a != [] {
      assert (a + s)[1..] == a[1..] + s;
      LStripPadded(a[1..], s);
    } else {
      assert a + s == s;
    }
  }

  lemma RStripPadded(s: string, b: string)
    requires AllSpace(b) && (s == [] || !IsSpace(s[|s| - 1]))
    ensures RStrip(s + b) == s
  {
    if b != [] {
      assert (s + b)[..|s + b| - 1] == s + b[..|b| - 1];
      RStripPadded(s, b[..|b| - 1]);
    } else {
      assert s + b == s;
    }
  }

  /** Stripping removes exactly the whitespace padding around trimmed text. */
  lemma {:induction false} StripPadded(a: string, s: string, b: string)
    requires AllSpace(a) && Trimmed(s) && AllSpace(b)
    ensures Strip(a + s + b) == s
  {
    if s == [] {
      assert a + s + b == a + b;
      assert AllSpace(a + b);
      AllSpaceStrips(a + b);
    } else {
      assert a + s + b == a + (s + b);
      LStripPadded(a, s + b);
      RStripPadded(s, b);
    }
  }

  lemma AllSpaceStrips(s: string)
    requires AllSpace(s)
    ensures LStrip(s) == [] && Strip(s) == []
  {
    if s != [] {
      AllSpaceStrips(s[1..]);
    }
  }

  lemma StripTrimmed(s: string)
    requires Trimmed(s)
    ensures Strip(s) == s
  {
    StripPadded([], s, []);
    assert [] + s + [] == s;
  }

  // ------------------------------------------------------ prefix, search

  /** `s.startswith(p)` */
  predicate StartsWith(s: string, p: string) {
    |p| <= |s| && s[..|p|] == p
  }

  lemma StartsWithAt(s: string, p: string, i: nat)
    requires i < |p|
    ensures StartsWith(s, p) ==> s[i] == p[i]
  {
    if StartsWith(s, p) {
      assert s[..|p|][i] == s[i];
    }
  }

  /** `p` occurs in `s` starting at index `i`. */
  predicate OccursAt(s: string, p: string, i: int) {
    0 <= i && i + |p| <= |s| && s[i..i + |p|] == p
  }

  /** `s.find(p, start)`: the least index at or after `start` where `p`
      occurs, or -1. */
  function Find(s: string, p: string, start: nat): (r: int)
    ensures r == -1 || (start <= r && OccursAt(s, p, r))
    ensures forall j :: start <= j && (r == -1 || j < r) ==> !OccursAt(s, p, j)
    decreases |s| + 1 - start
  {
    if start + |p| > |s| then -1
    else if OccursAt(s, p, start) then start
    else Find(s, p, start + 1)
  }

  /** `p in s` */
  predicate Contains(s: string, p: string) {
    Find(s, p, 0) >= 0
  }

  /** The first occurrence from `start` on is the one `Find` reports. */
  lemma FindFirst(s: string, p: string, start: nat, e: nat)
    requires start <= e && OccursAt(s, p, e)
    requires forall j :: start <= j < e ==> !OccursAt(s, p, j)
    ensures Find(s, p, start) == e
  {
  }

  lemma ContainsAt(s: string, p: string, i: int)
    requires OccursAt(s, p, i)
    ensures Contains(s, p)
  {
  }

  lemma NotContains(s: string, p: string, i: int)
    requires !Contains(s, p)
    ensures !OccursAt(s, p, i)
  {
    if OccursAt(s, p, i) {
      ContainsAt(s, p, i);
    }
  }

  /** An occurrence inside a slice is an occurrence in the whole. */
  lemma OccursShift(s: string, off: nat, r: string, p: string, j: int)
    requires off + |r| <= |s| && r == s[off..off + |r|] && OccursAt(r, p, j)
    ensures OccursAt(s, p, off + j)
  {
    forall k | 0 <= k < |p| ensures s[off + j + k] == p[k] {
      assert r[j..j + |p|][k] == r[j + k];
    }
    assert s[off + j..off + j + |p|] == p;
  }
  /** `s.strip()` is a slice of `s`, starting at `off`. */
  lemma StripWithin(s: string) returns (off: nat)
    ensures off + |Strip(s)| <= |s| && Strip(s) == s[off..off + |Strip(s)|]
  {
    var t := LStrip(s);
    var r := RStrip(t);
    off := |s| - |t|;
    assert s[off..off + |r|] == s[off..][..|r|];
  }

  /** An occurrence in `s.strip()` is an occurrence in `s`. */
  lemma StripOccurs(s: string, p: string, j: int) returns (k: int)
    requires OccursAt(Strip(s), p, j)
    ensures OccursAt(s, p, k)
  {
    var r := Strip(s);
    var off := StripWithin(s);
    OccursShift(s, off, r, p, j);
    k := off + j;
  }

  /** Stripping cannot create an occurrence of `p`. */
  lemma StripContains(s: string, p: string)
    ensures Contains(Strip(s), p) ==> Contains(s, p)
  {
    if Contains(Strip(s), p) {
      var k := StripOccurs(s, p, Find(Strip(s), p, 0));
      ContainsAt(s, p, k);
    }
  }

  /** `s.rfind(p, 0, end)` for a non-empty `p`: the greatest index whose
      occurrence of `p` ends at or before `end`, or -1. */
  function RFind(s: string, p: string, end: nat): (r: int)
    requires |p| > 0
    ensures r == -1 || (OccursAt(s, p, r) && r + |p| <= end)
    ensures forall j :: r < j && j + |p| <= end ==> !OccursAt(s, p, j)
    decreases end
  {
    var e := if end > |s| then |s| else end;
    if e < |p| then -1
    else if OccursAt(s, p, e - |p|) then e - |p|
    else RFind(s, p, e - 1)
  }

  /** RFind over a wider window never finds an earlier occurrence. */
  lemma RFindMonotone(s: string, p: string, e1: nat, e2: nat)
    requires |p| > 0 && e1 <= e2
    ensures RFind(s, p, e1) <= RFind(s, p, e2)
  {
  }

  // ---------------------------------------------------------- join, split

  /** `sep.join(parts)` */
  function Join(parts: seq<string>, sep: string): string
    decreases |parts|
  {
    if |parts| == 0 then []
    else if |parts| == 1 then parts[0]
    else parts[0] + sep + Join(parts[1..], sep)
  }

  /** `s.split(sep)` for a non-empty separator: the pieces between the
      successive leftmost non-overlapping occurrences of `sep`. */
  function Split(s: string, sep: string): (r: seq<string>)
    requires |sep| > 0
    ensures |r| >= 1
    ensures Join(r, sep) == s
    ensures forall k :: 0 <= k < |r| ==> !Contains(r[k], sep)
    decreases |s|
  {
    var i := Find(s, sep, 0);
    if i == -1 then [s]
    else
      var head, rest := s[..i], Split(s[i + |sep|..], sep);
      OccursInPrefix(s, sep, i, Find(head, sep, 0));
      assert s == head + sep + s[i + |sep|..];
      [head] + rest
  }

  lemma OccursInPrefix(s: string, p: string, i: nat, j: int)
    requires i <= |s|
    ensures OccursAt(s[..i], p, j) ==> OccursAt(s, p, j)
  {
    if OccursAt(s[..i], p, j) {
      assert s[..i][j..j + |p|] == s[j..j + |p|];
    }
  }

  /** Splitting text that does not contain the separator yields it whole. */
  lemma SplitAbsent(s: string, sep: string)
    requires |sep| > 0 && !Contains(s, sep)
    ensures Split(s, sep) == [s]
  {
  }

  /** A split has a second piece exactly when the separator occurs. */
  lemma SplitCount(s: string, sep: string)
    requires |sep| > 0
    ensures |Split(s, sep)| >= 2 <==> Contains(s, sep)
  {
  }

  /** `s.replace(p, "")`: every occurrence of `p` removed, left to right. */
  function RemoveAll(s: string, p: string): (r: string)
    requires |p| > 0
    ensures |r| <= |s|
  {
    var parts := Split(s, p);
    ConcatLength(parts, p);
    Concat(parts)
  }

  /** `"".join(parts)` */
  function Concat(parts: seq<string>): string
    decreases |parts|
  {
    if |parts| == 0 then [] else parts[0] + Concat(parts[1..])
  }

  /** Joining with `sep` adds one `sep` between each two parts. */
  lemma {:induction false} ConcatLength(parts: seq<string>, sep: string)
    ensures |Concat(parts)| + (if |parts| == 0 then 0 else (|parts| - 1) * |sep|) == |Join(parts, sep)|
    decreases |parts|
  {
    if |parts| > 1 {
      ConcatLength(parts[1..], sep);
    }
  }

  // ----------------------------------------------------------- splitlines

  /** The first index at or after `i` holding a line break, else `|s|`. */
  function LineEnd(s: string, i: nat): (r: nat)
    requires i <= |s|
    ensures i <= r <= |s|
    ensures r < |s| ==> IsLineBreak(s[r])
    ensures NoLineBreak(s[i..r])
    decreases |s| - i
  {
    if i == |s| || IsLineBreak(s[i]) then i else LineEnd(s, i + 1)
  }

  /** `s.splitlines()`: lines without their terminators; "\r\n" ends one
      line; a final terminator does not start an empty last line. */
  function SplitLines(s: string): (r: seq<string>)
    ensures forall k :: 0 <= k < |r| ==> NoLineBreak(r[k])
    ensures s == [] <==> r == []
    decreases |s|
  {
    if s == [] then []
    else
      var i := LineEnd(s, 0);
      assert s[..i] == s[0..i];
      if i == |s| then [s]
      else
        var next := if s[i] == '\r' && i + 1 < |s| && s[i + 1] == '\n' then i + 2 else i + 1;
        [s[..i]] + SplitLines(s[next..])
  }

  /** Lines joined with "\n" split back into the same lines, provided the
      last one is not empty (a trailing "\n" starts no line). */
  lemma {:induction false} SplitLinesJoin(lines: seq<string>)
    requires forall k :: 0 <= k < |lines| ==> NoLineBreak(lines[k])
    requires |lines| > 0 ==> lines[|lines| - 1] != []
    ensures SplitLines(Join(lines, "\n")) == lines
    decreases |lines|
  {
    if |lines| == 1 {
      LineEndNone(lines[0], 0);
    } else if |lines| > 1 {
      var rest := Join(lines[1..], "\n");
      JoinNonEmpty(lines[1..], "\n");
      SplitLinesCons(lines[0], rest);
      SplitLinesJoin(lines[1..]);
      assert lines == [lines[0]] + lines[1..];
    }
  }

  lemma SplitLinesCons(a: string, rest: string)
    requires NoLineBreak(a) && rest != []
    ensures SplitLines(a + "\n" + rest) == [a] + SplitLines(rest)
  {
    var s := a + "\n" + rest;
    assert s == a + ("\n" + rest);
    LineEndAt(a, "\n" + rest);
    var i := LineEnd(s, 0);
    assert i == |a| && i < |s|;
    assert s[..i] == a;
    assert s[i] == '\n' && s[i] != '\r';
    assert s[i + 1..] == rest;
  }

  lemma JoinNonEmpty(parts: seq<string>, sep: string)
    requires |parts| > 0 && parts[|parts| - 1] != []
    ensures Join(parts, sep) != []
    decreases |parts|
  {
    if |parts| > 1 {
      JoinNonEmpty(parts[1..], sep);
    }
  }

  lemma LineEndNone(s: string, i: nat)
    requires i <= |s| && NoLineBreak(s[i..])
    ensures LineEnd(s, i) == |s|
    decreases |s| - i
  {
    if i < |s| {
      assert s[i..][0] == s[i];
      assert s[i + 1..] == s[i..][1..];
      LineEndNone(s, i + 1);
    }
  }

  lemma LineEndAt(a: string, b: string)
    requires NoLineBreak(a) && b != [] && IsLineBreak(b[0])
    ensures LineEnd(a + b, 0) == |a|
  {
    var s := a + b;
    assert s[|a|] == b[0];
    assert forall k :: 0 <= k < |a| ==> s[k] == a[k];
  }

  // ------------------------------------------------- split on whitespace

  /** Index of the first whitespace character at or after `i`, else `|s|`. */
  function WordEnd(s: string, i: nat): (r: nat)
    requires i <= |s|
    ensures i <= r <= |s|
    ensures r < |s| ==> IsSpace(s[r])
    ensures NoSpace(s[i..r])
    decreases |s| - i
  {
    if i == |s| || IsSpace(s[i]) then i else WordEnd(s, i + 1)
  }

  /** `s.split(maxsplit=m)`: at most `m` whitespace-delimited words, then
      the rest of the text (leading whitespace dropped) as the last item. */
  function SplitWs(s: string, maxsplit: nat): (r: seq<string>)
    ensures forall w :: w in r ==> w != [] && !IsSpace(w[0])
    ensures |r| <= maxsplit + 1
    decreases |s|
  {
    var t := LStrip(s);
    if t == [] then []
    else if maxsplit == 0 then [t]
    else
      var j := WordEnd(t, 0);
      var word := t[..j];
      assert word != [] && !IsSpace(word[0]) by {
        assert j > 0 && word[0] == t[0];
      }
      var rest := SplitWs(t[j..], maxsplit - 1);
      assert forall w :: w in [word] + rest ==> w != [] && !IsSpace(w[0]) by {
        forall w | w in [word] + rest ensures w != [] && !IsSpace(w[0]) {
          if w != word {
            assert w in rest;
          }
        }
      }
      [word] + rest
  }

  /** A word that ends at a space ends where `WordEnd` says. */
  lemma WordEndAt(s: string, i: nat, w: string)
    requires i + |w| < |s| && s[i..i + |w|] == w && NoSpace(w) && IsSpace(s[i + |w|])
    ensures WordEnd(s, i) == i + |w|
    decreases |w|
  {
    if w != [] {
      assert s[i] == w[0];
      assert s[i + 1..i + 1 + |w[1..]|] == w[1..];
      WordEndAt(s, i + 1, w[1..]);
    }
  }

  /** A word with no space runs to the end. */
  lemma WordEndNone(s: string, i: nat)
    requires i <= |s| && NoSpace(s)
    ensures WordEnd(s, i) == |s|
    decreases |s| - i
  {
    if i < |s| {
      WordEndNone(s, i + 1);
    }
  }

  /** The first word of `w + rest` is `w` when `rest` opens with a space. */
  lemma WordEndPrefix(w: string, rest: string)
    requires NoSpace(w) && rest != [] && IsSpace(rest[0])
    ensures WordEnd(w + rest, 0) == |w|
  {
    var s := w + rest;
    assert s[0..|w|] == w && s[|w|] == rest[0];
    WordEndAt(s, 0, w);
  }

  /** Splitting on whitespace takes off a leading word. */
  lemma SplitWsWord(w: string, rest: string, m: nat)
    requires w != [] && NoSpace(w) && rest != [] && IsSpace(rest[0])
    ensures SplitWs(w + rest, m + 1) == [w] + SplitWs(rest, m)
  {
    var s := w + rest;
    LStripPadded([], s);
    assert [] + s == s;
    assert s[..|w|] == w && s[|w|..] == rest;
    WordEndPrefix(w, rest);
  }

  /** Leading whitespace does not change a split on whitespace. */
  lemma SplitWsSpace(x: string, m: nat)
    requires x != [] && !IsSpace(x[0])
    ensures SplitWs(" " + x, m) == SplitWs(x, m)
  {
    LStripPadded(" ", x);
    LStripPadded([], x);
    assert [] + x == x;
  }

  /** A single word splits into itself. */
  lemma SplitWsLast(x: string, m: nat)
    requires x != [] && NoSpace(x)
    ensures SplitWs(x, m) == [x]
  {
    LStripPadded([], x);
    assert [] + x == x;
    WordEndNone(x, 0);
    assert x[..|x|] == x && x[|x|..] == [];
  }

  /** `split(maxsplit=2)` of two words. */
  lemma TwoWords(a: string, b: string)
    requires a != [] && b != [] && NoSpace(a) && NoSpace(b)
    ensures SplitWs(a + (" " + b), 2) == [a, b]
  {
    SplitWsWord(a, " " + b, 1);
    LastWord(b, 1);
  }

  /** A last word after a space splits into itself. */
  lemma LastWord(b: string, m: nat)
    requires b != [] && NoSpace(b)
    ensures SplitWs(" " + b, m) == [b]
  {
    SplitWsSpace(b, m);
    SplitWsLast(b, m);
  }

  /** `split(maxsplit=2)` of three words. */
  lemma ThreeWords(a: string, b: string, c: string)
    requires a != [] && b != [] && c != [] && NoSpace(a) && NoSpace(b) && NoSpace(c)
    ensures SplitWs(a + (" " + (b + (" " + c))), 2) == [a, b, c]
  {
    SplitWsWord(a, " " + (b + (" " + c)), 1);
    TwoLastWords(b, c);
  }

  /** The last two words after a space split into themselves. */
  lemma TwoLastWords(b: string, c: string)
    requires b != [] && c != [] && NoSpace(b) && NoSpace(c)
    ensures SplitWs(" " + (b + (" " + c)), 1) == [b, c]
  {
    var rest := b + (" " + c);
    assert rest[0] == b[0];
    SplitWsSpace(rest, 1);
    SplitWsWord(b, " " + c, 0);
    LastWord(c, 0);
  }

  // ------------------------------------------- reading back joined text

  /** No character of `s` is `c`. */
  predicate Avoids(s: string, c: char) {
    forall i :: 0 <= i < |s| ==> s[i] != c
  }

  lemma AvoidsConcat(a: string, b: string, c: char)
    requires Avoids(a, c) && Avoids(b, c)
    ensures Avoids(a + b, c)
  {
  }

  lemma NoLineBreakConcat(a: string, b: string)
    requires NoLineBreak(a) && NoLineBreak(b)
    ensures NoLineBreak(a + b)
  {
  }

  /** Text lacking one of the characters of `p` cannot contain `p`. */
  lemma AvoidsChar(s: string, p: string, i: nat)
    requires i < |p| && Avoids(s, p[i])
    ensures !Contains(s, p)
  {
    forall j | 0 <= j && j + |p| <= |s| ensures !OccursAt(s, p, j) {
      assert s[j..j + |p|][i] == s[j + i];
    }
  }

  lemma OccursInLeft(a: string, b: string, p: string, j: int)
    requires OccursAt(a + b, p, j) && j + |p| <= |a|
    ensures OccursAt(a, p, j)
  {
    assert (a + b)[j..j + |p|] == a[j..j + |p|];
  }

  lemma OccursInRight(a: string, b: string, p: string, j: int)
    requires OccursAt(a + b, p, j) && j >= |a|
    ensures OccursAt(b, p, j - |a|)
  {
    assert (a + b)[j..j + |p|] == b[j - |a|..j - |a| + |p|];
  }

  /** A pattern of one or two characters occurs in `a + b` only inside
      `a`, inside `b`, or across the seam. */
  lemma NoneInConcat(a: string, b: string, p: string)
    requires 1 <= |p| <= 2 && !Contains(a, p) && !Contains(b, p)
    requires |p| == 2 && a != [] && b != [] ==> a[|a| - 1] != p[0] || b[0] != p[1]
    ensures !Contains(a + b, p)
  {
    var s := a + b;
    if Contains(s, p) {
      var r := Find(s, p, 0);
      if r + |p| <= |a| {
        OccursInLeft(a, b, p, r);
        ContainsAt(a, p, r);
      } else if r >= |a| {
        OccursInRight(a, b, p, r);
        ContainsAt(b, p, r - |a|);
      }
    }
  }

  /** A character that cannot open `p` adds no occurrence in front. */
  lemma NoneAfterChar(c: char, s: string, p: string)
    requires |p| > 0 && c != p[0] && !Contains(s, p)
    ensures !Contains([c] + s, p)
  {
    var t := [c] + s;
    if Contains(t, p) {
      var r := Find(t, p, 0);
      if r > 0 {
        OccursInRight([c], s, p, r);
        ContainsAt(s, p, r - 1);
      }
    }
  }

  /** A pattern cannot start at a character unlike its first, nor end at a
      character unlike its last: around `p`, such characters add no
      occurrence. */
  lemma NoneOutside(a: string, p: string, b: string, w: string)
    requires |w| > 0 && !Contains(p, w)
    requires forall i :: 0 <= i < |a| ==> a[i] != w[0]
    requires forall i :: 0 <= i < |b| ==> b[i] != w[|w| - 1]
    ensures !Contains(a + p + b, w)
  {
    var s := a + p + b;
    if Contains(s, w) {
      var r := Find(s, w, 0);
      assert s[r..r + |w|][0] == s[r] && s[r..r + |w|][|w| - 1] == s[r + |w| - 1];
      assert |a| <= r && r + |w| <= |a| + |p|;
      assert s[r..r + |w|] == p[r - |a|..r - |a| + |w|];
      ContainsAt(p, w, r - |a|);
    }
  }

  /** The characters of an occurrence are those of the pattern. */
  lemma OccursChar(s: string, w: string, r: int, i: nat)
    requires OccursAt(s, w, r) && i < |w|
    ensures s[r + i] == w[i]
  {
    assert s[r..r + |w|][i] == s[r + i];
  }

  /** A character that `w` lacks separates: no occurrence crosses it. */
  lemma NoneAroundChar(x: string, c: char, y: string, w: string)
    requires |w| > 0 && !Contains(x, w) && !Contains(y, w)
    requires forall i :: 0 <= i < |w| ==> w[i] != c
    ensures !Contains(x + [c] + y, w)
  {
    var s := x + [c] + y;
    if Contains(s, w) {
      var r := Find(s, w, 0);
      if r + |w| <= |x| {
        assert s == x + ([c] + y);
        OccursInLeft(x, [c] + y, w, r);
        ContainsAt(x, w, r);
      } else if r > |x| {
        assert s == (x + [c]) + y;
        OccursInRight(x + [c], y, w, r);
        ContainsAt(y, w, r - |x| - 1);
      } else {
        OccursChar(s, w, r, |x| - r);
        assert false;
      }
    }
  }

  /** `w` starts with a letter found nowhere else in it. */
  predicate FirstUnique(w: string) {
    |w| > 0 && forall k :: 0 < k < |w| ==> w[k] != w[0]
  }

  /** A pattern whose first letter occurs only there cannot overlap
      itself, so no occurrence crosses into text that starts with that
      letter. */
  lemma NoStraddle(x: string, y: string, w: string)
    requires FirstUnique(w) && !Contains(x, w) && !Contains(y, w)
    requires y != [] && y[0] == w[0]
    ensures !Contains(x + y, w)
  {
    var s := x + y;
    if Contains(s, w) {
      var r := Find(s, w, 0);
      if r + |w| <= |x| {
        OccursInLeft(x, y, w, r);
        ContainsAt(x, w, r);
      } else if r >= |x| {
        OccursInRight(x, y, w, r);
        ContainsAt(y, w, r - |x|);
      } else {
        OccursChar(s, w, r, |x| - r);
        assert false;
      }
    }
  }

  /** `s.replace(w, "")` leaves text without `w` alone. */
  lemma RemoveAbsent(s: string, w: string)
    requires |w| > 0 && !Contains(s, w)
    ensures RemoveAll(s, w) == s
  {
    SplitAbsent(s, w);
    assert Concat([s]) == s + Concat([]);
  }

  /** `(z + w).replace(w, "")` is `z` when `z` has no `w` and `w` cannot
      overlap itself. */
  lemma RemoveSuffix(z: string, w: string)
    requires FirstUnique(w) && !Contains(z, w)
    ensures RemoveAll(z + w, w) == z
  {
    var head := w[..|w| - 1];
    assert !Contains(head, w) by {
      assert Find(head, w, 0) == -1;
    }
    if head != [] {
      assert head[0] == w[0];
      NoStraddle(z, head, w);
    } else {
      assert z + head == z;
    }
    SplitFirst(z, w, []);
    assert z + w + [] == z + w;
    SplitAbsent([], w);
    var parts: seq<string> := [z, []];
    assert parts[1..][1..] == [];
    assert Concat(parts) == z + ([] + Concat([]));
  }

  /** `sep` first occurs in `x + sep + y` right after `x`, when no
      occurrence starts inside `x`. */
  lemma FindAfter(x: string, sep: string, y: string)
    requires |sep| > 0 && !Contains(x + sep[..|sep| - 1], sep)
    ensures Find(x + sep + y, sep, 0) == |x|
  {
    var s := x + sep + y;
    var w := x + sep[..|sep| - 1];
    assert s[|x|..|x| + |sep|] == sep;
    assert OccursAt(s, sep, |x|);
    var r := Find(s, sep, 0);
    if r != |x| {
      assert s == w + ([sep[|sep| - 1]] + y);
      OccursInLeft(w, [sep[|sep| - 1]] + y, sep, r);
      ContainsAt(w, sep, r);
    }
  }

  /** Splitting at the first separator. */
  lemma SplitFirst(x: string, sep: string, y: string)
    requires |sep| > 0 && !Contains(x + sep[..|sep| - 1], sep)
    ensures Split(x + sep + y, sep) == [x] + Split(y, sep)
  {
    var s := x + sep + y;
    FindAfter(x, sep, y);
    assert s[..|x|] == x;
    assert s[|x| + |sep|..] == y;
  }

  /** `s.split(sep)` undoes `sep.join(parts)` when no part holds `sep`
      and no occurrence starts inside one part and ends in `sep`. */
  lemma {:induction false} SplitJoin(parts: seq<string>, sep: string)
    requires |sep| > 0 && |parts| > 0
    requires forall k :: 0 <= k < |parts| ==> !Contains(parts[k], sep)
    requires forall k :: 0 <= k < |parts| - 1 ==> !Contains(parts[k] + sep[..|sep| - 1], sep)
    ensures Split(Join(parts, sep), sep) == parts
    decreases |parts|
  {
    if |parts| == 1 {
      SplitAbsent(parts[0], sep);
    } else {
      SplitJoin(parts[1..], sep);
      SplitFirst(parts[0], sep, Join(parts[1..], sep));
      assert parts == [parts[0]] + parts[1..];
    }
  }

  /** Every line preceded by "\n": what follows the first line once the
      lines are joined with "\n". */
  function Prefixed(lines: seq<string>): string
    decreases |lines|
  {
    if lines == [] then [] else "\n" + lines[0] + Prefixed(lines[1..])
  }

  lemma {:induction false} PrefixedAppend(a: seq<string>, b: seq<string>)
    ensures Prefixed(a + b) == Prefixed(a) + Prefixed(b)
    decreases |a|
  {
    if a != [] {
      assert (a + b)[1..] == a[1..] + b;
      PrefixedAppend(a[1..], b);
    } else {
      assert a + b == b;
    }
  }

  lemma {:induction false} JoinPrefixed(lines: seq<string>)
    requires |lines| > 0
    ensures Join(lines, "\n") == lines[0] + Prefixed(lines[1..])
    decreases |lines|
  {
    if |lines| > 1 {
      JoinPrefixed(lines[1..]);
      assert lines[1..][1..] == lines[2..];
    }
  }

  /** Lines preceded by "\n" split into an empty first line and the lines,
      provided the last one is not empty. */
  lemma SplitLinesPrefixed(lines: seq<string>)
    requires forall k :: 0 <= k < |lines| ==> NoLineBreak(lines[k])
    requires |lines| > 0 ==> lines[|lines| - 1] != []
    ensures SplitLines(Prefixed(lines)) == if lines == [] then [] else [""] + lines
  {
    if lines != [] {
      var j := Join(lines, "\n");
      PrefixedIsJoin(lines);
      JoinNonEmpty(lines, "\n");
      SplitLinesJoin(lines);
      SplitLinesCons("", j);
      assert "" + "\n" + j == "\n" + j;
    }
  }

  lemma PrefixedIsJoin(lines: seq<string>)
    requires lines != []
    ensures Prefixed(lines) == "\n" + Join(lines, "\n")
  {
    JoinPrefixed(lines);
  }

  /** "\n" + q cannot start inside text without line breaks. */
  lemma NoBreakStartsIn(s: string, a: string, p: string, j: int)
    requires NoLineBreak(a) && |a| <= |s| && s[..|a|] == a && p != [] && p[0] == '\n'
    requires 0 <= j < |a| && j + |p| <= |s|
    ensures !OccursAt(s, p, j)
  {
    assert s[j..j + |p|][0] == s[j] == a[j];
  }

  /** "\n" + q right after `a` needs the next line to start with q. */
  lemma NoBreakStartsAt(a: string, l: string, rest: string, q: string)
    requires NoLineBreak(q) && !StartsWith(l, q) && (rest == [] || rest[0] == '\n')
    requires |a| + 1 + |q| <= |a + "\n" + l + rest|
    ensures !OccursAt(a + "\n" + l + rest, "\n" + q, |a|)
  {
    var s := a + "\n" + l + rest;
    var p := "\n" + q;
    var w := s[|a|..|a| + |p|];
    if |q| <= |l| {
      forall i | 0 <= i < |q| ensures w[1 + i] == l[i] {
        assert s[|a| + 1 + i] == l[i];
      }
      assert w[1..] == l[..|q|];
      assert p[1..] == q;
    } else {
      assert w[1 + |l|] == rest[0] == '\n';
      assert p[1 + |l|] == q[|l|] != '\n';
    }
  }

  /** After text without line breaks, "\n" + q occurs only where a line
      starts with q. */
  lemma {:induction false} NoLineStartsWith(a: string, lines: seq<string>, q: string)
    requires NoLineBreak(a) && NoLineBreak(q)
    requires forall k :: 0 <= k < |lines| ==> NoLineBreak(lines[k]) && !StartsWith(lines[k], q)
    ensures !Contains(a + Prefixed(lines), "\n" + q)
    decreases |lines|
  {
    var p := "\n" + q;
    var s := a + Prefixed(lines);
    assert p[0] == '\n';
    forall j | 0 <= j && j + |p| <= |s| ensures !OccursAt(s, p, j) {
      if j < |a| {
        NoBreakStartsIn(s, a, p, j);
      } else {
        var rest := Prefixed(lines[1..]);
        var b := lines[0] + rest;
        assert s == a + "\n" + lines[0] + rest;
        if j == |a| {
          NoBreakStartsAt(a, lines[0], rest, q);
        } else {
          NoLineStartsWith(lines[0], lines[1..], q);
          NotContains(b, p, j - |a| - 1);
          assert s == (a + "\n") + b;
          assert s[j..j + |p|] == b[j - |a| - 1..j - |a| - 1 + |p|];
        }
      }
    }
  }

  // ------------------------------------------------------------- slicing

  /** A Python slice bound: negative counts from the end, then clamped. */
  function Clamp(i: int, n: nat): (r: nat)
    ensures r <= n
    ensures 0 <= i <= n ==> r == i
  {
    if i < 0 then (if i + n < 0 then 0 else i + n) else if i > n then n else i
  }

  /** `s[a:b]` */
  function Slice(s: string, a: int, b: int): string {
    var i, j := Clamp(a, |s|), Clamp(b, |s|);
    if i < j then s[i..j] else []
  }

  // --------------------------------------------------------------- str(int)

  function DigitChar(d: nat): (c: char)
    requires d < 10
    ensures '0' <= c <= '9'
  {
    "0123456789"[d]
  }

  predicate AllDigits(s: string) {
    forall i :: 0 <= i < |s| ==> '0' <= s[i] <= '9'
  }

  /** `str(n)` for a natural number: its decimal digits. */
  function NatToString(n: nat): (r: string)
    ensures r != [] && AllDigits(r)
  {
    if n < 10 then [DigitChar(n)] else NatToString(n / 10) + [DigitChar(n % 10)]
  }

  /** `str(i)` */
  function IntToString(i: int): (r: string)
    ensures r != [] && NoSpace(r)
  {
    if i < 0 then "-" + NatToString(-i) else NatToString(i)
  }

  /** The number a string of decimal digits denotes. */
  function DigitsValue(s: string): nat
    requires AllDigits(s)
  {
    if s == [] then 0 else 10 * DigitsValue(s[..|s| - 1]) + (s[|s| - 1] as int - '0' as int)
  }

  /** Reading the decimal digits back gives the number. */
  lemma {:induction false} NatToStringRoundTrip(n: nat)
    ensures DigitsValue(NatToString(n)) == n
  {
    var r := NatToString(n);
    if n >= 10 {
      NatToStringRoundTrip(n / 10);
      assert r[..|r| - 1] == NatToString(n / 10);
    }
  }
}
