/** Paths as their components, and the texts they are cut from. */
module Paths {
  import opened ByteStrings

  /** A path below the base directory, as its components. */
  type Path = seq<string>

  /** The parts of `s` between the slashes. */
  function Split(s: string): (parts: seq<string>)
    ensures parts != []
    ensures forall i :: 0 <= i < |parts| ==> '/' !in parts[i]
    decreases |s|
  {
    match Find(s, "/", 0)
    case None =>
      assert forall i :: 0 <= i < |s| ==> s[i] == '/' ==> OccursAt(s, "/", i);
      [s]
    case Some(k) =>
      assert forall i :: 0 <= i < |s| ==> s[i] == '/' ==> OccursAt(s, "/", i);
      [s[..k]] + Split(s[k + 1..])
  }

  function Joined(parts: seq<string>): string {
    if parts == [] then "" else if |parts| == 1 then parts[0] else parts[0] + "/" + Joined(parts[1..])
  }

  function FindLast(s: string, c: char): (r: Option<nat>)
    ensures r.Some? ==> r.value < |s| && s[r.value] == c && c !in s[r.value + 1..]
    ensures r.None? ==> c !in s
  {
    if s == "" then None
    else if Last(s) == c then Some(|s| - 1)
    else
      var r := FindLast(Init(s), c);
      assert s == Init(s) + [Last(s)];
      assert r.Some? ==> s[r.value + 1..] == Init(s)[r.value + 1..] + [Last(s)];
      r
  }

  /** What it means to find the first slash. */
  lemma FirstSlash(s: string)
    ensures Find(s, "/", 0).None? ==> '/' !in s
    ensures var r := Find(s, "/", 0); r.Some? ==> r.value < |s| && s[r.value] == '/' && '/' !in s[..r.value]
  {
    assert forall i :: 0 <= i < |s| && s[i] == '/' ==> OccursAt(s, "/", i);
    if k :| Find(s, "/", 0) == Some(k) {
      assert s[k] == s[k..k + 1][0];
    }
  }

  lemma NoSlashSplit(s: string)
    requires '/' !in s
    ensures Split(s) == [s]
  {
    FirstSlash(s);
  }

  lemma FindInFront(x: string, y: string)
    requires y != "" && y[0] == '/'
    ensures Find(x + y, "/", 0) == Some(match Find(x, "/", 0) case None => |x| case Some(k) => k)
  {
    FirstSlash(x);
    FirstSlash(x + y);
    assert (x + y)[|x|] == '/';
    assert forall i :: 0 <= i < |x| ==> (x + y)[i] == x[i];
  }

  lemma {:induction false} SplitAtLast(x: string, y: string)
    requires '/' !in y
    ensures Split(x + "/" + y) == Split(x) + [y]
    decreases |x|
  {
    var s := x + "/" + y;
    FindInFront(x, "/" + y);
    assert s == x + ("/" + y);
    match Find(x, "/", 0)
    case None =>
      assert s[..|x|] == x && s[|x| + 1..] == y;
      NoSlashSplit(y);
    case Some(k) =>
      assert s[..k] == x[..k] && s[k + 1..] == x[k + 1..] + "/" + y;
      SplitAtLast(x[k + 1..], y);
  }

  /** The parts of a string, joined, are the string. */
  lemma {:induction false} JoinedSplit(s: string)
    ensures Joined(Split(s)) == s
    decreases |s|
  {
    match Find(s, "/", 0)
    case None =>
    case Some(k) =>
      JoinedSplit(s[k + 1..]);
      assert (([s[..k]] + Split(s[k + 1..])))[1..] == Split(s[k + 1..]);
      assert s == s[..k] + "/" + s[k + 1..];
  }

  lemma SplitFirst(first: string, more: string)
    requires '/' !in first
    ensures Split(first + "/" + more) == [first] + Split(more)
  {
    var s := first + "/" + more;
    FindInFront(first, "/" + more);
    FirstSlash(first);
    assert s == first + ("/" + more) && s[..|first|] == first && s[|first| + 1..] == more;
  }

  /** The parts of a string are the only strings without slashes that the string is made of. */
  lemma {:induction false} SplitExactly(s: string, parts: seq<string>)
    ensures Split(s) == parts
      <==> parts != [] && (forall i :: 0 <= i < |parts| ==> '/' !in parts[i]) && Joined(parts) == s
    decreases |parts|
  {
    hide Split;
    JoinedSplit(s);
    if parts != [] && (forall i :: 0 <= i < |parts| ==> '/' !in parts[i]) && Joined(parts) == s {
      if |parts| == 1 {
        NoSlashSplit(s);
      } else {
        SplitExactly(Joined(parts[1..]), parts[1..]);
        SplitFirst(parts[0], Joined(parts[1..]));
        assert parts == [parts[0]] + parts[1..];
      }
    }
  }

  /** How the last slash of `"/" + s` cuts `s` into what is in front of its last component, and that component. */
  lemma CutAtLastSlash(s: string, pos: nat)
    requires FindLast("/" + s, '/') == Some(pos)
    ensures Last(Split(s)) == ("/" + s)[pos + 1..]
    ensures |Split(s)| == 1 <==> pos == 0
    ensures pos == 0 ==> Split(s) == [s]
    ensures pos > 0 ==> Joined(Init(Split(s))) == ("/" + s)[1..pos]
  {
    var url := "/" + s;
    if pos == 0 {
      assert url[1..] == s;
      NoSlashSplit(s);
    } else {
      var x, y := url[1..pos], url[pos + 1..];
      assert s == url[1..] == x + "/" + y;
      SplitAtLast(x, y);
      assert Init(Split(s)) == Split(x);
      JoinedSplit(x);
    }
  }

  lemma SplitInTwo(x: string, y: string)
    requires '/' !in x && '/' !in y
    ensures Split(x + "/" + y) == [x, y]
  {
    SplitAtLast(x, y);
    NoSlashSplit(x);
  }

  lemma JoinedHasSlash(path: Path)
    requires |path| > 1
    ensures '/' in Joined(path)
  {
    var s := Joined(path);
    assert s[|path[0]|] == '/';
  }
}
