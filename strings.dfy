/**
 * The .NET string and path primitives the backup engine relies on, as
 * functions over `seq<char>`: `StartsWith`, `IndexOf`, `LastIndexOf`,
 * `Split`, `Trim`, `Path.Combine` and `Path.GetDirectoryName`.
 * Comparison is ordinal; paths use '/' as their only separator.
 */
module Strings {

  /** `s.StartsWith(prefix)`, compared character by character. */
  predicate StartsWith(s: string, prefix: string) {
    |prefix| <= |s| && s[..|prefix|] == prefix
  }

  /** `s` starts with `prefix` exactly when it is `prefix` followed by something. */
  lemma StartsWithConcat(s: string, prefix: string)
    ensures StartsWith(s, prefix) <==> exists rest :: s == prefix + rest
  {
    if StartsWith(s, prefix) {
      assert s == prefix + s[|prefix|..];
    }
  }

  /** A string that starts with `mid`, where `mid` starts with `prefix`,
      starts with `prefix`. */
  lemma StartsWithTransitive(s: string, mid: string, prefix: string)
    requires StartsWith(s, mid) && StartsWith(mid, prefix)
    ensures StartsWith(s, prefix)
  {
    assert s[..|prefix|] == mid[..|prefix|];
  }

  /** `s.IndexOf(c)`: the first position of `c`, or -1. */
  function IndexOf(s: string, c: char): (i: int)
    ensures -1 <= i < |s|
    ensures i >= 0 ==> s[i] == c && c !in s[..i]
    ensures i < 0 ==> c !in s
  {
    if s == [] then -1
    else if s[0] == c then 0
    else
      var j := IndexOf(s[1..], c);
      if j < 0 then -1 else j + 1
  }

  /** `s.LastIndexOf(c)`: the last position of `c`, or -1. */
  function LastIndexOf(s: string, c: char): (i: int)
    ensures -1 <= i < |s|
    ensures i >= 0 ==> s[i] == c && c !in s[i + 1..]
    ensures i < 0 ==> c !in s
  {
    if s == [] then -1
    else if s[|s| - 1] == c then |s| - 1
    else LastIndexOf(s[..|s| - 1], c)
  }

  /** Appending text free of `c` does not move the last `c`. */
  lemma {:induction false} LastIndexOfAppend(s: string, t: string, c: char)
    requires c !in t
    ensures LastIndexOf(s + t, c) == LastIndexOf(s, c)
  {
    if t != [] {
      var t' := t[..|t| - 1];
      assert (s + t)[..|s + t| - 1] == s + t';
      assert (s + t)[|s + t| - 1] == t[|t| - 1];
      LastIndexOfAppend(s, t', c);
    } else {
      assert s + t == s;
    }
  }

  /** A suffix that starts with `c` and holds no other `c` puts the last
      `c` right after the prefix. */
  lemma LastIndexOfLead(prefix: string, suffix: string, c: char)
    requires |suffix| >= 1 && suffix[0] == c && c !in suffix[1..]
    ensures LastIndexOf(prefix + suffix, c) == |prefix|
  {
    SplitLead(prefix, suffix);
    LastIndexOfLast(prefix, suffix[0]);
    LastIndexOfAppend(prefix + [suffix[0]], suffix[1..], c);
  }

  /** A non-empty suffix is its first character followed by the rest. */
  lemma SplitLead(prefix: string, suffix: string)
    requires |suffix| >= 1
    ensures prefix + suffix == (prefix + [suffix[0]]) + suffix[1..]
  {
    assert suffix == [suffix[0]] + suffix[1..];
  }

  /** The last `c` of a string that ends in `c` is its last position. */
  lemma LastIndexOfLast(prefix: string, c: char)
    ensures LastIndexOf(prefix + [c], c) == |prefix|
  {
  }

  /** `s.Split(sep)`: the pieces between separators, empty pieces kept. */
  function Split(s: string, sep: char): (parts: seq<string>)
    ensures |parts| >= 1
    ensures forall k :: 0 <= k < |parts| ==> sep !in parts[k]
    decreases |s|
  {
    var i := IndexOf(s, sep);
    if i < 0 then [s]
    else
      var rest := Split(s[i + 1..], sep);
      ConsFree(s[..i], rest, sep);
      [s[..i]] + rest
  }

  /** Putting a separator-free piece before separator-free pieces keeps
      every piece free of the separator. */
  lemma ConsFree(head: string, rest: seq<string>, sep: char)
    requires sep !in head
    requires forall k :: 0 <= k < |rest| ==> sep !in rest[k]
    ensures forall k :: 0 <= k < |rest| + 1 ==> sep !in ([head] + rest)[k]
  {
    forall k | 0 <= k < |rest| + 1
      ensures sep !in ([head] + rest)[k]
    {
      if k > 0 {
        assert ([head] + rest)[k] == rest[k - 1];
      }
    }
  }

  /** `string.Join(sep, parts)`. */
  function Join(parts: seq<string>, sep: char): (r: string)
    requires |parts| >= 1
    ensures StartsWith(r, parts[0])
    decreases |parts|
  {
    if |parts| == 1 then parts[0] else parts[0] + [sep] + Join(parts[1..], sep)
  }

  /** Splitting undoes joining when no part contains the separator. */
  lemma {:induction false} SplitJoin(parts: seq<string>, sep: char)
    requires |parts| >= 1
    requires forall k :: 0 <= k < |parts| ==> sep !in parts[k]
    ensures Split(Join(parts, sep), sep) == parts
  {
    if |parts| > 1 {
      var head, rest := parts[0], Join(parts[1..], sep);
      var s := head + [sep] + rest;
      assert s[|head|] == sep;
      assert s[..|head|] == head;
      var i := IndexOf(s, sep);
      assert i == |head|;
      assert s[i + 1..] == rest;
      SplitJoin(parts[1..], sep);
    }
  }

  /** `s.TrimStart(cs)`: drops the leading characters that are in `cs`. */
  function TrimStart(s: string, cs: set<char>): (r: string)
    ensures |r| <= |s| && r == s[|s| - |r|..]
    ensures r == [] || r[0] !in cs
    ensures forall k :: 0 <= k < |s| - |r| ==> s[k] in cs
  {
    if s != [] && s[0] in cs then TrimStart(s[1..], cs) else s
  }

  /** `s.TrimEnd(cs)`: drops the trailing characters that are in `cs`. */
  function TrimEnd(s: string, cs: set<char>): (r: string)
    ensures |r| <= |s| && r == s[..|r|]
    ensures r == [] || r[|r| - 1] !in cs
    ensures forall k :: |r| <= k < |s| ==> s[k] in cs
  {
    if s != [] && s[|s| - 1] in cs then TrimEnd(s[..|s| - 1], cs) else s
  }

  /** `s.Trim(cs)`: drops the characters in `cs` from both ends. */
  function Trim(s: string, cs: set<char>): (r: string)
    ensures |r| <= |s|
    ensures r == [] || (r[0] !in cs && r[|r| - 1] !in cs)
  {
    TrimEnd(TrimStart(s, cs), cs)
  }

  /** Trimming a string that is bracketed by one trim character on each side
      and whose inner ends are not trim characters yields the inner text. */
  lemma TrimBracketed(open: char, inner: string, close: char, cs: set<char>)
    requires open in cs && close in cs
    requires inner != [] && inner[0] !in cs && inner[|inner| - 1] !in cs
    ensures Trim([open] + inner + [close], cs) == inner
  {
    var s := [open] + inner + [close];
    assert s[1..] == inner + [close];
    assert (inner + [close])[0] == inner[0];
    assert TrimStart(s[1..], cs) == inner + [close];
    var u := TrimStart(s, cs);
    assert u == inner + [close];
    assert u[..|u| - 1] == inner;
  }

  /** The number of occurrences of `c` in `s`. */
  function Count(s: string, c: char): nat {
    if s == [] then 0 else (if s[0] == c then 1 else 0) + Count(s[1..], c)
  }

  lemma {:induction false} CountAppend(s: string, t: string, c: char)
    ensures Count(s + t, c) == Count(s, c) + Count(t, c)
  {
    if s == [] {
      assert s + t == t;
    } else {
      assert (s + t)[1..] == s[1..] + t;
      CountAppend(s[1..], t, c);
    }
  }

  lemma {:induction false} CountAbsent(s: string, c: char)
    requires c !in s
    ensures Count(s, c) == 0
  {
    if s != [] {
      CountAbsent(s[1..], c);
    }
  }

  /** `Path.Combine(dir, relative)` for a relative second argument. */
  function Combine(dir: string, relative: string): (r: string)
    ensures |r| == |dir| + 1 + |relative|
    ensures r[..|dir|] == dir && r[|dir|] == '/' && r[|dir| + 1..] == relative
    ensures '/' !in relative ==> DirectoryName(r) == dir
  {
    if '/' in relative then dir + "/" + relative
    else
      assert (dir + "/")[|dir|] == '/';
      DirectoryNameAppend(dir + "/", relative);
      dir + "/" + relative
  }

  /** `Path.GetDirectoryName(path)`: everything before the last '/', or the
      empty string when there is none. */
  function DirectoryName(path: string): (r: string)
    ensures '/' in path ==> |r| < |path| && r == path[..|r|] && path[|r|] == '/' && '/' !in path[|r| + 1..]
    ensures '/' !in path ==> r == []
  {
    var i := LastIndexOf(path, '/');
    if i < 0 then [] else path[..i]
  }

  /** A '/'-free suffix does not change the directory of a path that has one. */
  lemma DirectoryNameAppend(path: string, name: string)
    requires '/' in path && '/' !in name
    ensures DirectoryName(path + name) == DirectoryName(path)
  {
    LastIndexOfAppend(path, name, '/');
    assert (path + name)[..LastIndexOf(path, '/')] == path[..LastIndexOf(path, '/')];
  }
}
