/**
 * The group database object: it reads a group file into a loaded snapshot
 * and a working copy, answers membership queries and applies guarded
 * membership changes to the working copy, and on closing says whether the
 * file must be rewritten and with what.
 */
module GroupDb {
  import opened Wrappers
  import opened OrderedMultiDict
  import opened PyStr
  import opened GroupFormat

  /** The domain errors; their message texts carry no meaning. */
  datatype GroupError = GroupNotExists | UserAlreadyInAGroup | UserNotInAGroup

  class Group {
    /** The path of the group file (reading and writing it is left to the caller). */
    var groupdb: string
    /** The snapshot loaded from the file. */
    var groups: Items
    /** The working copy that queries and changes act on. */
    var newGroups: Items

    constructor (groupdb: string)
      ensures this.groupdb == groupdb && groups == [] && newGroups == []
    {
      this.groupdb := groupdb;
      groups := [];
      newGroups := [];
    }

    /**
     * Entering: read the file contents `text`, adding each line's items to
     * `groups`; on success the working copy becomes an independent copy of
     * it. A line without `": "` stops the reading with an error after the
     * items of the lines before it were added, and the working copy is left
     * as it was.
     */
    method Open(text: string) returns (r: Outcome<ParseError>)
      modifies this`groups, this`newGroups
      ensures groups == old(groups) + LoadLines(LogicalLines(text))
      ensures r.Pass? <==> WellFormedLines(LogicalLines(text))
      ensures r.Pass? <==> Parse(text).Success?
      ensures r.Pass? ==> newGroups == groups && groups == old(groups) + Parse(text).value
      ensures r.Fail? ==> r.error == MalformedLine && newGroups == old(newGroups)
    {
      var lines := SplitLines(RemoveContinuations(text));
      ghost var loaded := LoadLines(lines);
      var i := 0;
      while i < |lines|
        invariant 0 <= i <= |lines|
        invariant WellFormedLines(lines[..i])
        invariant old(groups) + loaded == groups + LoadLines(lines[i..])
        invariant newGroups == old(newGroups)
      {
        var split := SplitOnce(lines[i]);
        if split.None? {
          LoadLinesStop(lines, i);
          ParseLoads(text);
          return Fail(MalformedLine);
        }
        var (groupname, users) := split.value;
        var tokens := Tokens(users);
        ghost var start := groups;
        var j := 0;
        while j < |tokens|
          invariant 0 <= j <= |tokens|
          invariant groups == start + LineItems(groupname, tokens[..j])
          invariant newGroups == old(newGroups)
        {
          LineItemsSnoc(groupname, tokens, j);
          ConcatAssoc(start, LineItems(groupname, tokens[..j]), [(groupname, tokens[j])]);
          groups := Add(groups, groupname, tokens[j]);
          j := j + 1;
        }
        assert tokens[..j] == tokens;
        LoadLinesStep(lines, i);
        ConcatAssoc(start, LineItems(groupname, tokens), LoadLines(lines[i + 1..]));
        i := i + 1;
      }
      assert lines[..i] == lines;
      ParseLoads(text);
      newGroups := groups;
      r := Pass;
    }

    /**
     * Exiting: `None` when the working copy equals the loaded snapshot (the
     * file is not touched), otherwise `Some` of the full new file contents,
     * one line per group in key order.
     */
    method Close() returns (w: Option<string>)
      ensures w.None? <==> newGroups == groups
      ensures w.Some? ==> w.value == Serialise(newGroups)
    {
      if newGroups == groups {
        return None;
      }
      var keys := Keys(newGroups);
      var out := "";
      var i := 0;
      while i < |keys|
        invariant 0 <= i <= |keys|
        invariant out + Terminated(Lines(newGroups, keys[i..])) == Serialise(newGroups)
      {
        var group := keys[i];
        var line := Line(group, GetList(newGroups, group)) + "\n";
        assert keys[i..][1..] == keys[i + 1..];
        LinesFirst(newGroups, keys[i..]);
        ConcatAssoc(out, line, Terminated(Lines(newGroups, keys[i + 1..])));
        out := out + line;
        i := i + 1;
      }
      w := Some(out);
    }

    /** The groups of the working copy, each once, in the order of their first item. */
    function ShowGroups(): (r: seq<Key>)
      reads this
      ensures NoDuplicates(r)
      ensures forall g :: g in r <==> g in KeySet(newGroups)
    {
      Keys(newGroups)
    }

    /** Is `group` a group of the working copy? */
    function IsGroupExists(group: Key): (b: bool)
      reads this
      ensures b <==> exists u :: (group, u) in newGroups
    {
      group in ShowGroups()
    }

    /** Is `user` listed in `group`? False for a group that does not exist. */
    function IsUserInAGroup(user: Value, group: Key): (b: bool)
      reads this
      ensures b <==> (group, user) in newGroups
      ensures b ==> IsGroupExists(group)
    {
      user in GetList(newGroups, group)
    }

    /**
     * Add `user` to `group`, creating the group when needed; a user already
     * in the group is an error and changes nothing.
     */
    method AddUserToGroup(user: Value, group: Key) returns (r: Outcome<GroupError>)
      modifies this`newGroups
      ensures groups == old(groups)
      ensures r == if old(IsUserInAGroup(user, group)) then Fail(UserAlreadyInAGroup) else Pass
      ensures r.Fail? ==> newGroups == old(newGroups)
      ensures r.Pass? ==> newGroups == Add(old(newGroups), group, user)
      ensures r.Pass? ==> IsUserInAGroup(user, group) && group in ShowGroups()
      ensures r.Pass? ==> GetList(newGroups, group) == GetList(old(newGroups), group) + [user]
      ensures forall g :: g != group ==> GetList(newGroups, g) == GetList(old(newGroups), g)
      ensures UniqueValues(old(newGroups)) ==> UniqueValues(newGroups)
    {
      if IsUserInAGroup(user, group) {
        return Fail(UserAlreadyInAGroup);
      }
      ghost var before := newGroups;
      newGroups := Add(newGroups, group, user);
      AddGetList(before, group, user, group);
      forall g | g != group ensures GetList(newGroups, g) == GetList(before, g) {
        AddGetList(before, group, user, g);
      }
      if UniqueValues(before) {
        AddKeepsUnique(before, group, user);
      }
      r := Pass;
    }

    /**
     * Remove `user` from `group`: a missing group is an error, checked first,
     * and so is a user not in the group; both change nothing. Otherwise one
     * (group, user) item is removed.
     */
    method DeleteUserFromGroup(user: Value, group: Key) returns (r: Outcome<GroupError>)
      modifies this`newGroups
      ensures groups == old(groups)
      ensures r == if !old(IsGroupExists(group)) then Fail(GroupNotExists)
                   else if !old(IsUserInAGroup(user, group)) then Fail(UserNotInAGroup)
                   else Pass
      ensures r.Fail? ==> newGroups == old(newGroups)
      ensures r.Pass? ==> RemovedOne(old(newGroups), newGroups, (group, user))
      ensures r.Pass? ==> RemovedOne(GetList(old(newGroups), group), GetList(newGroups, group), user)
      ensures forall g :: g != group ==> GetList(newGroups, g) == GetList(old(newGroups), g)
      ensures UniqueValues(old(newGroups)) ==> UniqueValues(newGroups)
      ensures UniqueValues(old(newGroups)) && r.Pass? ==> !IsUserInAGroup(user, group)
    {
      if !IsGroupExists(group) {
        return Fail(GroupNotExists);
      }
      if !IsUserInAGroup(user, group) {
        return Fail(UserNotInAGroup);
      }
      ghost var before := newGroups;
      newGroups := PopValue(newGroups, group, user);
      PopValueGetList(before, group, user, group);
      forall g | g != group ensures GetList(newGroups, g) == GetList(before, g) {
        PopValueGetList(before, group, user, g);
      }
      if UniqueValues(before) {
        PopValueKeepsUnique(before, group, user);
      }
      r := Pass;
    }
  }
}
