/**
 * The Python 3 string operations the group file parser and writer rely on:
 * the backslash-newline substitution, `str.splitlines()`, `str.split(": ", 1)`,
 * `str.split()` and `" ".join`. Strings are sequences of code points.
 */
module PyStr {
  import opened Wrappers

  /** The line boundaries of `str.splitlines()` (a `\r\n` pair counts as one). */
  predicate IsLineBreak(c: char) {
    c == '\n' || c == '\r' || c == '\U{000B}' || c == '\U{000C}' ||
    c == '\U{001C}' || c == '\U{001D}' || c == '\U{001E}' ||
    c == '\U{0085}' || c == '\U{2028}' || c == '\U{2029}'
  }

  /** The characters `str.isspace()` accepts, which `str.split()` splits on. */
  predicate IsSpace(c: char) {
    ('\t' <= c <= '\r') || ('\U{001C}' <= c <= ' ') || c == '\U{0085}' || c == '\U{00A0}' ||
    c == '\U{1680}' || ('\U{2000}' <= c <= '\U{200A}') || c == '\U{2028}' || c == '\U{2029}' ||
    c == '\U{202F}' || c == '\U{205F}' || c == '\U{3000}'
  }

  predicate NoLineBreak(s: string) {
    forall c :: c in s ==> !IsLineBreak(c)
  }

  /** A non-empty run of non-whitespace characters: what `str.split()` yields. */
  predicate IsWord(s: string) {
    s != [] && forall c :: c in s ==> !IsSpace(c)
  }

  /** `s` holds a backslash immediately followed by a newline at position `i`. */
  predicate ContinuationAt(s: string, i: int) {
    0 <= i && i + 1 < |s| && s[i] == '\\' && s[i + 1] == '\n'
  }

  /**
   * `re.sub("\\\\\n", "", s)`: delete, scanning left to right, every backslash
   * that is immediately followed by a newline, together with that newline.
   */
  function RemoveContinuations(s: string): (r: string)
    ensures |r| <= |s|
    ensures forall c :: c in r ==> c in s
    decreases |s|
  {
    if ContinuationAt(s, 0) then RemoveContinuations(s[2..])
    else if s == [] then []
    else [s[0]] + RemoveContinuations(s[1..])
  }

  /** Text with no backslash-newline pair is left as it is. */
  lemma {:induction false} RemoveContinuationsNone(s: string)
    requires forall i :: !ContinuationAt(s, i)
    ensures RemoveContinuations(s) == s
    decreases |s|
  {
    if s != [] {
      assert !ContinuationAt(s, 0);
      forall i ensures !ContinuationAt(s[1..], i) {
        assert !ContinuationAt(s, i + 1);
      }
      RemoveContinuationsNone(s[1..]);
    }
  }

  /** A backslash-newline pair is deleted wherever it stands, whatever comes before or after it. */
  lemma {:induction false} RemoveContinuationsSplice(a: string, b: string)
    ensures RemoveContinuations(a + "\\\n" + b) == RemoveContinuations(a) + RemoveContinuations(b)
    decreases |a|
  {
    var s := a + "\\\n" + b;
    if a == [] {
      assert s == "\\\n" + b;
      assert s[2..] == b;
    } else if ContinuationAt(a, 0) {
      assert ContinuationAt(s, 0);
      assert s[2..] == a[2..] + "\\\n" + b;
      RemoveContinuationsSplice(a[2..], b);
    } else {
      assert !ContinuationAt(s, 0) by {
        if |a| == 1 { assert s[1] == '\\'; }
      }
      assert s[1..] == a[1..] + "\\\n" + b;
      RemoveContinuationsSplice(a[1..], b);
    }
  }

  /**
   * A line without newlines that does not end in a backslash passes
   * unchanged together with the newline that ends it.
   */
  lemma {:induction false} RemoveContinuationsLine(l: string, rest: string)
    requires '\n' !in l
    requires l == [] || l[|l| - 1] != '\\'
    ensures RemoveContinuations(l + "\n" + rest) == l + "\n" + RemoveContinuations(rest)
    decreases |l|
  {
    var s := l + "\n" + rest;
    if l == [] {
      assert s == "\n" + rest;
      assert s[1..] == rest;
    } else {
      assert !ContinuationAt(s, 0) by {
        if |l| == 1 { assert s[1] == '\n'; } else { assert s[1] == l[1]; }
      }
      assert s[1..] == l[1..] + "\n" + rest;
      RemoveContinuationsLine(l[1..], rest);
    }
  }

  /** The length of the first line: the position of the first line break, or `|s|`. */
  function LineEnd(s: string): (i: nat)
    ensures i <= |s|
    ensures forall j :: 0 <= j < i ==> !IsLineBreak(s[j])
    ensures i < |s| ==> IsLineBreak(s[i])
  {
    if s == [] || IsLineBreak(s[0]) then 0 else 1 + LineEnd(s[1..])
  }

  /**
   * `str.splitlines()`: the lines of `s` without their line breaks; a `\r\n`
   * pair ends one line, and a final line break adds no empty line.
   */
  function SplitLines(s: string): (lines: seq<string>)
    ensures forall l :: l in lines ==> NoLineBreak(l)
    decreases |s|
  {
    if s == [] then []
    else
      var i := LineEnd(s);
      if i == |s| then [s]
      else
        var next := if s[i] == '\r' && i + 1 < |s| && s[i + 1] == '\n' then i + 2 else i + 1;
        [s[..i]] + SplitLines(s[next..])
  }

  /** Each line followed by a newline: the inverse of `SplitLines` on lines without breaks. */
  function Terminated(lines: seq<string>): string {
    if lines == [] then [] else lines[0] + "\n" + Terminated(lines[1..])
  }

  /** Splitting newline-terminated lines that hold no line break gives the lines back. */
  lemma {:induction false} SplitLinesTerminated(lines: seq<string>)
    requires forall l :: l in lines ==> NoLineBreak(l)
    ensures SplitLines(Terminated(lines)) == lines
  {
    if lines != [] {
      var l := lines[0];
      var s := Terminated(lines);
      assert s == l + "\n" + Terminated(lines[1..]);
      assert l in lines;
      assert s[|l|] == '\n';
      assert forall j :: 0 <= j < |l| ==> s[j] == l[j] && l[j] in l;
      var i := LineEnd(s);
      assert i == |l|;
      assert s[..i] == l;
      assert s[i + 1..] == Terminated(lines[1..]);
      SplitLinesTerminated(lines[1..]);
    }
  }

  /** The separator `": "` starts at position `i` of `s`. */
  predicate SeparatorAt(s: string, i: int) {
    0 <= i && i + 1 < |s| && s[i] == ':' && s[i + 1] == ' '
  }

  predicate HasSeparator(s: string) {
    exists i | 0 <= i < |s| :: SeparatorAt(s, i)
  }

  lemma SeparatorTail(s: string)
    requires s != [] && !SeparatorAt(s, 0)
    ensures HasSeparator(s) <==> HasSeparator(s[1..])
  {
    if HasSeparator(s) {
      var i :| 0 <= i < |s| && SeparatorAt(s, i);
      assert i != 0;
      assert s[1..][i - 1] == s[i] && s[1..][i] == s[i + 1];
      assert SeparatorAt(s[1..], i - 1);
    }
    if HasSeparator(s[1..]) {
      var i :| 0 <= i < |s[1..]| && SeparatorAt(s[1..], i);
      assert s[1..][i] == s[i + 1] && s[1..][i + 1] == s[i + 2];
      assert SeparatorAt(s, i + 1);
    }
  }

  /**
   * `s.split(": ", 1)` unpacked into two names: the text before the first
   * `": "` and the text after it; `None` when there is no `": "`, where the
   * unpack fails.
   */
  function SplitOnce(s: string): (r: Option<(string, string)>)
    ensures r.None? <==> !HasSeparator(s)
    ensures r.Some? ==> s == r.value.0 + ": " + r.value.1 && !HasSeparator(r.value.0)
    decreases |s|
  {
    if |s| < 2 then
      assert forall i :: !SeparatorAt(s, i);
      None
    else if SeparatorAt(s, 0) then
      assert s == [] + ": " + s[2..];
      Some(([], s[2..]))
    else
      SeparatorTail(s);
      match SplitOnce(s[1..])
      case None => None
      case Some((before, after)) =>
        assert !HasSeparator([s[0]] + before) by {
          if before != [] {
            SeparatorTail([s[0]] + before);
            assert ([s[0]] + before)[1..] == before;
          }
        }
        Some(([s[0]] + before, after))
  }

  /** With no `": "` before it, the separator just after `a` is the first one. */
  lemma SplitOnceAt(a: string, b: string)
    requires !HasSeparator(a)
    ensures SplitOnce(a + ": " + b) == Some((a, b))
  {
    var s := a + ": " + b;
    assert SeparatorAt(s, |a|);
    var before, after := SplitOnce(s).value.0, SplitOnce(s).value.1;
    assert s == before + ": " + after;
    if |before| < |a| {
      assert SeparatorAt(s, |before|);
      if |before| + 1 < |a| {
        assert SeparatorAt(a, |before|);
      }
    } else if |a| < |before| {
      assert SeparatorAt(s, |a|);
      if |a| + 1 < |before| {
        assert SeparatorAt(before, |a|);
      }
    }
    assert before == s[..|a|] == a;
    assert after == s[|a| + 2..] == b;
  }

  /** The length of the leading word: the position of the first whitespace, or `|s|`. */
  function WordEnd(s: string): (n: nat)
    ensures n <= |s|
    ensures forall j :: 0 <= j < n ==> !IsSpace(s[j])
    ensures n < |s| ==> IsSpace(s[n])
  {
    if s == [] || IsSpace(s[0]) then 0 else 1 + WordEnd(s[1..])
  }

  /** `s.split()`: the maximal runs of non-whitespace characters, in order. */
  function Tokens(s: string): (ts: seq<string>)
    ensures forall t :: t in ts ==> IsWord(t)
    decreases |s|
  {
    if s == [] then []
    else if IsSpace(s[0]) then Tokens(s[1..])
    else
      var n := WordEnd(s);
      assert forall c :: c in s[..n] ==> !IsSpace(c);
      [s[..n]] + Tokens(s[n..])
  }

  /** `" ".join(words)`. */
  function Join(words: seq<string>): string {
    if words == [] then []
    else if |words| == 1 then words[0]
    else words[0] + " " + Join(words[1..])
  }

  /** Splitting the space-joined words gives the words back. */
  lemma {:induction false} TokensJoin(words: seq<string>)
    requires forall w :: w in words ==> IsWord(w)
    ensures Tokens(Join(words)) == words
  {
    if words != [] {
      var w := words[0];
      assert IsWord(w) && w in words;
      var rest := if |words| == 1 then [] else " " + Join(words[1..]);
      var s := w + rest;
      assert Join(words) == s;
      assert forall j :: 0 <= j < |w| ==> s[j] == w[j] && w[j] in w;
      assert !IsSpace(s[0]);
      assert WordEnd(s) == |w| by {
        if |words| > 1 { assert s[|w|] == ' '; }
      }
      assert s[..|w|] == w;
      assert s[|w|..] == rest;
      if |words| > 1 {
        assert rest[1..] == Join(words[1..]);
        TokensJoin(words[1..]);
      }
    }
  }

  /** Every character of a join is a space or a character of one of the words. */
  lemma {:induction false} JoinChars(words: seq<string>, c: char)
    requires c in Join(words)
    ensures c == ' ' || exists w :: w in words && c in w
  {
    if |words| > 1 {
      assert Join(words) == words[0] + " " + Join(words[1..]);
      if c !in words[0] && c != ' ' {
        JoinChars(words[1..], c);
      }
    }
  }
}
