/**
 * The group file format: one `group: user1 user2 ...` line per group.
 * On reading, backslash-newline pairs join physical lines, each logical line
 * is split at its first `": "`, and every whitespace-separated token becomes
 * one (group, user) item. On writing, each group becomes one line with its
 * members joined by single spaces.
 */
module GroupFormat {
  import opened Wrappers
  import opened OrderedMultiDict
  import opened PyStr

  /** A logical line with no `": "`: unpacking the split into two names fails. */
  datatype ParseError = MalformedLine

  /** The items one line adds: one (group, user) item per token, in token order. */
  function LineItems(group: Key, users: seq<Value>): (r: Items)
    ensures |r| == |users|
  {
    if users == [] then [] else [(group, users[0])] + LineItems(group, users[1..])
  }

  lemma {:induction false} LineItemsConcat(group: Key, a: seq<Value>, b: seq<Value>)
    ensures LineItems(group, a + b) == LineItems(group, a) + LineItems(group, b)
  {
    if a == [] {
      assert a + b == b;
    } else {
      assert (a + b)[1..] == a[1..] + b;
      LineItemsConcat(group, a[1..], b);
    }
  }

  /** One more token adds one more item at the end. */
  lemma LineItemsSnoc(group: Key, users: seq<Value>, j: int)
    requires 0 <= j < |users|
    ensures LineItems(group, users[..j + 1]) == LineItems(group, users[..j]) + [(group, users[j])]
  {
    assert users[..j + 1] == users[..j] + [users[j]];
    LineItemsConcat(group, users[..j], [users[j]]);
  }

  /** The items of one logical line, or `None` when it has no `": "`. */
  function ParseLine(line: string): Option<Items> {
    match SplitOnce(line)
    case None => None
    case Some((group, users)) => Some(LineItems(group, Tokens(users)))
  }

  /** The logical lines of a file: continuations removed, then split into lines. */
  function LogicalLines(text: string): seq<string> {
    SplitLines(RemoveContinuations(text))
  }

  /** Every line has a `": "`. */
  predicate WellFormedLines(lines: seq<string>) {
    forall i | 0 <= i < |lines| :: ParseLine(lines[i]).Some?
  }

  /** The items the lines add in order, up to the first malformed line. */
  function LoadLines(lines: seq<string>): Items {
    if lines == [] then []
    else
      match ParseLine(lines[0])
      case None => []
      case Some(items) => items + LoadLines(lines[1..])
  }

  /** The database a group file holds, or the error reading it raises. */
  function Parse(text: string): Result<Items, ParseError> {
    var lines := LogicalLines(text);
    if WellFormedLines(lines) then Success(LoadLines(lines)) else Failure(MalformedLine)
  }

  /** Reading on past a well-formed line. */
  lemma LoadLinesStep(lines: seq<string>, i: int)
    requires 0 <= i < |lines| && SplitOnce(lines[i]).Some?
    ensures WellFormedLines(lines[..i]) ==> WellFormedLines(lines[..i + 1])
    ensures LoadLines(lines[i..]) ==
            LineItems(SplitOnce(lines[i]).value.0, Tokens(SplitOnce(lines[i]).value.1)) + LoadLines(lines[i + 1..])
  {
    assert lines[i..][1..] == lines[i + 1..];
    if WellFormedLines(lines[..i]) {
      var p := lines[..i + 1];
      forall j | 0 <= j < i + 1 ensures ParseLine(p[j]).Some? {
        if j < i {
          assert p[j] == lines[..i][j];
        }
      }
    }
  }

  /** Reading stops at a malformed line, and the file as a whole is malformed. */
  lemma LoadLinesStop(lines: seq<string>, i: int)
    requires 0 <= i < |lines| && SplitOnce(lines[i]).None?
    ensures LoadLines(lines[i..]) == [] && !WellFormedLines(lines)
  {
  }

  /** Reading succeeds exactly when every logical line is well formed, and then gives their items. */
  lemma ParseLoads(text: string)
    ensures Parse(text).Success? <==> WellFormedLines(LogicalLines(text))
    ensures Parse(text).Success? ==> Parse(text).value == LoadLines(LogicalLines(text))
  {
  }

  /** The line written for one group, without its newline. */
  function Line(group: Key, users: seq<Value>): string {
    group + ": " + Join(users)
  }

  /** The lines written for the groups `ks`, in that order. */
  function Lines(d: Items, ks: seq<Key>): (r: seq<string>)
    ensures |r| == |ks|
  {
    if ks == [] then [] else [Line(ks[0], GetList(d, ks[0]))] + Lines(d, ks[1..])
  }

  /** The text for the groups `ks` starts with the terminated line of the first group. */
  lemma LinesFirst(d: Items, ks: seq<Key>)
    requires ks != []
    ensures Terminated(Lines(d, ks)) == Line(ks[0], GetList(d, ks[0])) + "\n" + Terminated(Lines(d, ks[1..]))
  {
  }

  /** The file contents written for `d`: one newline-terminated line per key, in key order. */
  function Serialise(d: Items): string {
    Terminated(Lines(d, Keys(d)))
  }

  /** The items of the groups `ks`, one group after the other. */
  function Grouped(d: Items, ks: seq<Key>): Items {
    if ks == [] then [] else LineItems(ks[0], GetList(d, ks[0])) + Grouped(d, ks[1..])
  }

  /** A group name that survives writing and reading: no line break and no `": "`. */
  predicate ValidGroupName(g: Key) {
    NoLineBreak(g) && !HasSeparator(g)
  }

  /** A user name that survives writing and reading: a non-empty word with no backslash. */
  predicate ValidUserName(u: Value) {
    IsWord(u) && '\\' !in u
  }

  ghost predicate WellFormed(d: Items) {
    forall x :: x in d ==> ValidGroupName(x.0) && ValidUserName(x.1)
  }

  /**
   * The items of one line give one group whose members are the tokens in
   * order; a line without tokens gives no group at all.
   */
  lemma {:induction false} LineItemsView(group: Key, users: seq<Value>, g: Key)
    ensures Keys(LineItems(group, users)) == if users == [] then [] else [group]
    ensures GetList(LineItems(group, users), g) == if g == group then users else []
  {
    var r := LineItems(group, users);
    if users != [] {
      assert r[1..] == LineItems(group, users[1..]);
      LineItemsView(group, users[1..], g);
      WithoutLineItems(group, users[1..]);
    }
  }

  /** The group name of a line is the text before its first `": "`, and its members are the tokens after it. */
  lemma ParseLineOf(group: Key, users: string)
    requires !HasSeparator(group)
    ensures ParseLine(group + ": " + users) == Some(LineItems(group, Tokens(users)))
  {
    SplitOnceAt(group, users);
  }

  /** Reading fails exactly when some logical line holds no `": "` (an empty line included). */
  lemma ParseFails(text: string)
    ensures Parse(text).Failure? <==> exists l :: l in LogicalLines(text) && !HasSeparator(l)
  {
    var lines := LogicalLines(text);
    if !WellFormedLines(lines) {
      var i :| 0 <= i < |lines| && ParseLine(lines[i]).None?;
      assert lines[i] in lines;
    }
  }

  /** Continuation lines: the backslash-newline pair vanishes and the two physical lines form one. */
  lemma ContinuationJoins(a: string, b: string)
    requires forall i :: !ContinuationAt(a, i)
    requires forall i :: !ContinuationAt(b, i)
    ensures LogicalLines(a + "\\\n" + b) == SplitLines(a + b)
  {
    RemoveContinuationsSplice(a, b);
    RemoveContinuationsNone(a);
    RemoveContinuationsNone(b);
  }

  // ---- Round trip: reading what was written ----

  lemma {:induction false} RemoveContinuationsTerminated(lines: seq<string>)
    requires forall l :: l in lines ==> '\n' !in l && (l == [] || l[|l| - 1] != '\\')
    ensures RemoveContinuations(Terminated(lines)) == Terminated(lines)
  {
    if lines != [] {
      assert lines[0] in lines;
      RemoveContinuationsLine(lines[0], Terminated(lines[1..]));
      RemoveContinuationsTerminated(lines[1..]);
    }
  }

  /** A written line holds no line break and does not end in a backslash. */
  lemma LineShape(d: Items, g: Key)
    requires WellFormed(d) && g in KeySet(d)
    ensures NoLineBreak(Line(g, GetList(d, g)))
    ensures var l := Line(g, GetList(d, g)); l != [] && l[|l| - 1] != '\\'
  {
    var users := GetList(d, g);
    var x :| x in d && x.0 == g;
    var l := Line(g, users);
    forall c | c in Join(users) ensures c == ' ' || (!IsSpace(c) && c != '\\') {
      JoinChars(users, c);
      if c != ' ' {
        var w :| w in users && c in w;
        assert (g, w) in d;
      }
    }
    forall c | c in l ensures !IsLineBreak(c) {
      if c in g { } else if c in ": " { } else { assert c in Join(users); }
    }
    assert l[|l| - 1] in l;
    if Join(users) != [] {
      assert l[|l| - 1] == Join(users)[|Join(users)| - 1];
      assert Join(users)[|Join(users)| - 1] in Join(users);
    }
  }

  /** Reading back the lines written for keys of `d` gives their groups. */
  lemma {:induction false} LoadWritten(d: Items, ks: seq<Key>)
    requires WellFormed(d)
    requires forall k :: k in ks ==> k in KeySet(d)
    ensures WellFormedLines(Lines(d, ks))
    ensures LoadLines(Lines(d, ks)) == Grouped(d, ks)
  {
    if ks != [] {
      var k := ks[0];
      assert k in ks;
      var x :| x in d && x.0 == k;
      var users := GetList(d, k);
      forall u | u in users ensures IsWord(u) {
        assert (k, u) in d;
      }
      ParseLineOf(k, Join(users));
      TokensJoin(users);
      assert ParseLine(Line(k, users)) == Some(LineItems(k, users));
      LoadWritten(d, ks[1..]);
      var lines := Lines(d, ks);
      assert lines[1..] == Lines(d, ks[1..]);
      forall i | 0 <= i < |lines| ensures ParseLine(lines[i]).Some? {
        if i > 0 { assert lines[i] == Lines(d, ks[1..])[i - 1]; }
      }
    }
  }

  /** The members each group has after reading back: those of the keys written. */
  lemma {:induction false} GroupedGetList(d: Items, ks: seq<Key>, g: Key)
    requires NoDuplicates(ks)
    ensures GetList(Grouped(d, ks), g) == if g in ks then GetList(d, g) else []
  {
    if ks != [] {
      GetListConcat(LineItems(ks[0], GetList(d, ks[0])), Grouped(d, ks[1..]), g);
      LineItemsView(ks[0], GetList(d, ks[0]), g);
      assert NoDuplicates(ks[1..]) by {
        forall i, j | 0 <= i < j < |ks[1..]| ensures ks[1..][i] != ks[1..][j] {
          assert ks[1..][i] == ks[i + 1] && ks[1..][j] == ks[j + 1];
        }
      }
      GroupedGetList(d, ks[1..], g);
      if g == ks[0] {
        assert g !in ks[1..];
      }
    }
  }

  /** Taking key `k` out of a line of group `k` leaves nothing. */
  lemma {:induction false} WithoutLineItems(k: Key, users: seq<Value>)
    ensures Without(LineItems(k, users), k) == []
  {
    if users != [] {
      assert LineItems(k, users)[1..] == LineItems(k, users[1..]);
      WithoutLineItems(k, users[1..]);
    }
  }

  /** Taking key `k` out of the tail of a line of group `k` followed by `rest` leaves `rest`. */
  lemma WithoutLineTail(k: Key, users: seq<Value>, rest: Items)
    requires users != []
    requires k !in KeySet(rest)
    ensures Without((LineItems(k, users) + rest)[1..], k) == rest
  {
    assert (LineItems(k, users) + rest)[1..] == LineItems(k, users[1..]) + rest;
    WithoutConcat(LineItems(k, users[1..]), rest, k);
    WithoutLineItems(k, users[1..]);
    WithoutAbsent(rest, k);
  }

  /** A group whose items come first keeps first place among the keys. */
  lemma KeysPrepend(k: Key, users: seq<Value>, rest: Items)
    requires users != []
    requires k !in KeySet(rest)
    ensures Keys(LineItems(k, users) + rest) == [k] + Keys(rest)
  {
    var s := LineItems(k, users) + rest;
    assert s[0] == (k, users[0]);
    WithoutLineTail(k, users, rest);
  }

  /** The key order after reading back: that of the keys written. */
  lemma {:induction false} GroupedKeys(d: Items, ks: seq<Key>)
    requires NoDuplicates(ks)
    requires forall k :: k in ks ==> GetList(d, k) != []
    ensures Keys(Grouped(d, ks)) == ks
  {
    if ks != [] {
      var k := ks[0];
      assert k in ks;
      assert NoDuplicates(ks[1..]) by {
        forall i, j | 0 <= i < j < |ks[1..]| ensures ks[1..][i] != ks[1..][j] {
          assert ks[1..][i] == ks[i + 1] && ks[1..][j] == ks[j + 1];
        }
      }
      assert k !in ks[1..];
      GroupedGetList(d, ks[1..], k);
      GetListEmpty(Grouped(d, ks[1..]), k);
      KeysPrepend(k, GetList(d, k), Grouped(d, ks[1..]));
      GroupedKeys(d, ks[1..]);
    }
  }

  /**
   * Reading the file written for a database with valid names succeeds and
   * gives back the same groups, in the same order, with the same members in
   * the same order. (The items come back grouped by key.)
   */
  lemma RoundTrip(d: Items)
    requires WellFormed(d)
    ensures Parse(Serialise(d)) == Success(Grouped(d, Keys(d)))
    ensures Keys(Parse(Serialise(d)).value) == Keys(d)
    ensures forall g :: GetList(Parse(Serialise(d)).value, g) == GetList(d, g)
  {
    var ks := Keys(d);
    var lines := Lines(d, ks);
    forall l | l in lines ensures NoLineBreak(l) && '\n' !in l && (l == [] || l[|l| - 1] != '\\') {
      var i :| 0 <= i < |lines| && lines[i] == l;
      LinesAt(d, ks, i);
      LineShape(d, ks[i]);
    }
    RemoveContinuationsTerminated(lines);
    SplitLinesTerminated(lines);
    assert LogicalLines(Serialise(d)) == lines;
    LoadWritten(d, ks);
    forall k | k in ks ensures GetList(d, k) != [] {
      GetListEmpty(d, k);
    }
    GroupedKeys(d, ks);
    forall g ensures GetList(Grouped(d, ks), g) == GetList(d, g) {
      GroupedGetList(d, ks, g);
      GetListEmpty(d, g);
    }
  }

  lemma {:induction false} LinesAt(d: Items, ks: seq<Key>, i: int)
    requires 0 <= i < |ks|
    ensures Lines(d, ks)[i] == Line(ks[i], GetList(d, ks[i]))
  {
    if i > 0 {
      LinesAt(d, ks[1..], i - 1);
    } else if |ks| > 1 {
      LinesAt(d, ks[1..], 0);
    }
  }

  /** The written lines depend only on each written group's members. */
  lemma {:induction false} LinesAgree(d: Items, e: Items, ks: seq<Key>)
    requires forall g :: GetList(d, g) == GetList(e, g)
    ensures Lines(d, ks) == Lines(e, ks)
  {
    if ks != [] {
      LinesAgree(d, e, ks[1..]);
    }
  }

  /** Writing what was read back from a written file gives the same file contents again. */
  lemma SerialiseStable(d: Items)
    requires WellFormed(d)
    ensures Parse(Serialise(d)).Success? && Serialise(Parse(Serialise(d)).value) == Serialise(d)
  {
    RoundTrip(d);
    LinesAgree(Parse(Serialise(d)).value, d, Keys(d));
  }
}
