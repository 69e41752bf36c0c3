/**
 * The todo-list user-list codec of
 * packages/editor/src/components/custom-parse.ts: a list of users written
 * as `username&&authId;;` items, one after another, and read back with
 * JavaScript's `String.prototype.split`.
 */
module UserListCodec {
  import opened Wrappers

  const ItemEnd: string := ";;"
  const FieldSep: string := "&&"

  /** JavaScript's string split by a non-empty separator: the pieces between the
      occurrences of `sep` found from left to right, none overlapping. */
  function Split(s: string, sep: string): (parts: seq<string>)
    requires |sep| > 0
    ensures |parts| > 0
    decreases |s|
  {
    if |s| < |sep| then [s]
    else if s[..|sep|] == sep then [""] + Split(s[|sep|..], sep)
    else
      var rest := Split(s[1..], sep);
      [[s[0]] + rest[0]] + rest[1..]
  }

  /** The pieces glued back together with the separator between them. */
  function Join(parts: seq<string>, sep: string): string
    requires |parts| > 0
  {
    if |parts| == 1 then parts[0] else parts[0] + sep + Join(parts[1..], sep)
  }

  /** Splitting loses nothing: joining the pieces gives the string back. */
  lemma {:induction false} JoinSplit(s: string, sep: string)
    requires |sep| > 0
    ensures Join(Split(s, sep), sep) == s
    decreases |s|
  {
    if |s| < |sep| {
    } else if s[..|sep|] == sep {
      JoinSplit(s[|sep|..], sep);
      var rest := Split(s[|sep|..], sep);
      assert Split(s, sep) == [""] + rest;
      assert s == s[..|sep|] + s[|sep|..];
    } else {
      JoinSplit(s[1..], sep);
      var rest := Split(s[1..], sep);
      assert s == [s[0]] + s[1..];
      if |rest| == 1 {
        assert Split(s, sep) == [[s[0]] + rest[0]];
      } else {
        assert Split(s, sep)[1..] == rest[1..];
        assert Join(Split(s, sep), sep) == [s[0]] + rest[0] + sep + Join(rest[1..], sep);
      }
    }
  }

  /** Two `c`s in a row occur nowhere in `x`. */
  predicate NoPair(x: string, c: char)
  {
    forall i :: 0 <= i < |x| - 1 ==> !(x[i] == c && x[i + 1] == c)
  }

  /** `x` followed by the separator `cc` is cut exactly at that separator:
      no `cc` inside `x`, and `x` does not end with `c`. */
  predicate CutsCleanly(x: string, c: char)
  {
    NoPair(x, c) && (|x| > 0 ==> x[|x| - 1] != c)
  }

  /** Without a separator inside, a string splits into itself. */
  lemma {:induction false} SplitNone(x: string, c: char)
    requires NoPair(x, c)
    ensures Split(x, [c, c]) == [x]
    decreases |x|
  {
    if |x| >= 2 {
      assert x[..2] != [c, c] by {
        assert !(x[0] == c && x[1] == c);
      }
      SplitNone(x[1..], c);
      assert [x[0]] + x[1..] == x;
    }
  }

  /** A piece that cuts cleanly comes off whole. */
  lemma {:induction false} SplitAfter(x: string, c: char, y: string)
    requires CutsCleanly(x, c)
    ensures Split(x + [c, c] + y, [c, c]) == [x] + Split(y, [c, c])
    decreases |x|
  {
    var s := x + [c, c] + y;
    if x == [] {
      assert s[..2] == [c, c];
      assert s[2..] == y;
    } else {
      assert s[..2] != [c, c] by {
        if |x| == 1 {
          assert s[0] == x[0] && s[1] == c;
        } else {
          assert s[0] == x[0] && s[1] == x[1];
        }
      }
      SplitAfter(x[1..], c, y);
      assert s[1..] == x[1..] + [c, c] + y;
      assert [x[0]] + x[1..] == x;
    }
  }

  // ---------------------------------------------------------------------

  /** A `userInfo`. */
  datatype UserInfo = UserInfo(username: string, authId: string)

  /** What `parse` yields per item: the empty string that an empty item
      stays, or a user whose `authId` is `undefined` when the item has no
      `&&`. */
  datatype Entry = Blank | User(username: string, authId: Option<string>)

  /** One item of `stringify`. */
  function Item(u: UserInfo): string
  {
    u.username + FieldSep + u.authId + ItemEnd
  }

  /** `stringify(userList)`, item after item. */
  function Serialized(users: seq<UserInfo>): string
  {
    if users == [] then "" else Item(users[0]) + Serialized(users[1..])
  }

  lemma {:induction false} SerializedSnoc(users: seq<UserInfo>, u: UserInfo)
    ensures Serialized(users + [u]) == Serialized(users) + Item(u)
  {
    if users != [] {
      assert (users + [u])[1..] == users[1..] + [u];
      SerializedSnoc(users[1..], u);
    }
  }

  /** `stringify`: the accumulating loop. */
  method Stringify(userList: seq<UserInfo>) returns (str: string)
    ensures str == Serialized(userList)
  {
    str := "";
    for i := 0 to |userList|
      invariant str == Serialized(userList[..i])
    {
      var itemStr := userList[i].username + "&&" + userList[i].authId + ";;";
      SerializedSnoc(userList[..i], userList[i]);
      assert userList[..i + 1] == userList[..i] + [userList[i]];
      str := str + itemStr;
    }
    assert userList[..|userList|] == userList;
  }

  /** One item of `parse`: an empty item stays as it is, any other is cut
      at its `&&`s into a username and, when there is one, an `authId`;
      further pieces are dropped. */
  function ParseItem(itemStr: string): Entry
  {
    if itemStr == "" then Blank
    else
      var fields := Split(itemStr, FieldSep);
      User(fields[0], if |fields| > 1 then Some(fields[1]) else None)
  }

  /** `parse(str)`: the items between `;;`s, the last one dropped. */
  function Parse(str: string): seq<Entry>
  {
    var infoStr := Split(str, ItemEnd);
    seq(|infoStr| - 1, i requires 0 <= i < |infoStr| - 1 => ParseItem(infoStr[i]))
  }

  /** A user `stringify` writes so that `parse` reads it back: neither
      field holds its own item's separators where they would be found, the
      username does not end with `&` and the `authId` not with `;`. */
  predicate Representable(u: UserInfo)
  {
    && CutsCleanly(u.username, '&') && NoPair(u.authId, '&')
    && NoPair(u.username, ';') && CutsCleanly(u.authId, ';')
  }

  lemma ItemCutsCleanly(u: UserInfo)
    requires Representable(u)
    ensures CutsCleanly(u.username + FieldSep + u.authId, ';')
  {
    var x := u.username + FieldSep + u.authId;
    forall i | 0 <= i < |x| - 1 ensures !(x[i] == ';' && x[i + 1] == ';') {
      if i + 1 < |u.username| {
        assert x[i] == u.username[i] && x[i + 1] == u.username[i + 1];
      } else if i >= |u.username| + 2 {
        assert x[i] == u.authId[i - |u.username| - 2] && x[i + 1] == u.authId[i + 1 - |u.username| - 2];
      } else if i + 1 == |u.username| {
        assert x[i + 1] == '&';
      } else {
        assert x[i] == '&';
      }
    }
  }

  lemma ParseItemOfItem(u: UserInfo)
    requires Representable(u)
    ensures ParseItem(u.username + FieldSep + u.authId) == User(u.username, Some(u.authId))
  {
    SplitAfter(u.username, '&', u.authId);
    SplitNone(u.authId, '&');
    assert u.username + FieldSep + u.authId == u.username + ['&', '&'] + u.authId;
  }

  /** A string without `;;` (the empty string among them) reads as no
      users. */
  lemma ParseDropsLast(s: string)
    requires NoPair(s, ';')
    ensures Parse(s) == []
  {
    SplitNone(s, ';');
  }

  /** An item that cuts cleanly is read on its own, before the rest. */
  lemma ParseCons(x: string, y: string)
    requires CutsCleanly(x, ';')
    ensures Parse(x + ItemEnd + y) == [ParseItem(x)] + Parse(y)
  {
    SplitAfter(x, ';', y);
    assert x + ItemEnd + y == x + [';', ';'] + y;
  }

  /** The round trip: `parse` reads back every user `stringify` wrote,
      each with its `authId`, in order. */
  lemma {:induction false} ParseStringify(users: seq<UserInfo>)
    requires forall k :: 0 <= k < |users| ==> Representable(users[k])
    ensures Parse(Serialized(users)) == seq(|users|, k requires 0 <= k < |users| => User(users[k].username, Some(users[k].authId)))
  {
    if users == [] {
      ParseDropsLast("");
    } else {
      var u := users[0];
      var x := u.username + FieldSep + u.authId;
      var rest := Serialized(users[1..]);
      ItemCutsCleanly(u);
      assert Serialized(users) == x + ItemEnd + rest;
      ParseCons(x, rest);
      ParseItemOfItem(u);
      ParseStringify(users[1..]);
    }
  }

  /** The item `stringify` writes for user `a&` with `authId` `b`. */
  lemma AmbiguousItem()
    ensures Serialized([UserInfo("a&", "b")]) == "a&&&b;;"
    ensures Split("a&&&b;;", ItemEnd) == ["a&&&b", ""]
  {
    var u := UserInfo("a&", "b");
    assert [u][1..] == [];
    assert Item(u) == "a&&&b;;";
    var item := "a&&&b";
    assert CutsCleanly(item, ';') by {
      assert forall i :: 0 <= i < |item| ==> item[i] != ';';
    }
    SplitAfter(item, ';', "");
    assert "a&&&b;;" == item + [';', ';'] + "";
    SplitNone("", ';');
  }

  /** `split` takes the first `&&` of `a&&&b`. */
  lemma AmbiguousFields()
    ensures Split("a&&&b", FieldSep) == ["a", "&b"]
  {
    SplitAfter("a", '&', "&b");
    assert "a&&&b" == "a" + ['&', '&'] + "&b";
    assert NoPair("&b", '&') by {
      assert "&b"[1] != '&';
    }
    SplitNone("&b", '&');
  }

  /** Without escaping, a username ending in `&` loses it to the `authId`. */
  lemma AmbiguousUsername()
    ensures Serialized([UserInfo("a&", "b")]) == "a&&&b;;"
    ensures Parse("a&&&b;;") == [User("a", Some("&b"))]
  {
    AmbiguousItem();
    AmbiguousFields();
  }

  /** Text after the last `;;` that `stringify` wrote holds no `;;` of its
      own and is dropped: `parse` reads the same users with or without it. */
  lemma {:induction false} ParseDropsTail(users: seq<UserInfo>, tail: string)
    requires forall k :: 0 <= k < |users| ==> Representable(users[k])
    requires NoPair(tail, ';')
    ensures Parse(Serialized(users) + tail) == Parse(Serialized(users))
  {
    if users == [] {
      ParseDropsLast(tail);
      ParseDropsLast("");
      assert Serialized(users) + tail == tail;
    } else {
      var u := users[0];
      var x := u.username + FieldSep + u.authId;
      var rest := Serialized(users[1..]);
      ItemCutsCleanly(u);
      assert Serialized(users) == x + ItemEnd + rest;
      assert Serialized(users) + tail == x + ItemEnd + (rest + tail);
      ParseCons(x, rest + tail);
      ParseCons(x, rest);
      ParseDropsTail(users[1..], tail);
    }
  }

  /** An empty item between two `;;`s reads as the empty string, not as a
      user. */
  lemma ParseEmptyItems()
    ensures Parse(";;;;") == [Blank, Blank]
  {
    assert Split("", ";;") == [""];
    assert Split(";;", ";;") == ["", ""];
    assert Split(";;;;", ";;") == ["", "", ""];
  }

  /** In general: an empty item before any rest reads as `Blank` followed
      by whatever the rest reads as. */
  lemma ParseEmptyItem(y: string)
    ensures Parse(ItemEnd + y) == [Blank] + Parse(y)
  {
    assert "" + ItemEnd + y == ItemEnd + y;
    ParseCons("", y);
  }

  /** An item without `&&` reads as a user whose `authId` is missing. */
  lemma ParseMissingAuthId(name: string)
    requires name != [] && NoPair(name, '&') && CutsCleanly(name, ';')
    ensures Parse(name + ItemEnd) == [User(name, None)]
  {
    SplitAfter(name, ';', "");
    assert name + ItemEnd == name + [';', ';'] + "";
    assert Split("", ";;") == [""];
    SplitNone(name, '&');
  }
}
