/** The path walk of `vfs_lookup` (`kernel/vfs.c`): which names it passes to `vfs_finddir`. */
module PathSplit {
  const U32: nat := 0x1_0000_0000

  /** The parts of a path between its slashes, empty ones included. */
  ghost function Parts(s: seq<char>): (r: seq<seq<char>>)
    ensures r != []
  {
    if s == [] then [[]]
    else
      var r := Parts(s[..|s| - 1]);
      if s[|s| - 1] == '/' then r + [[]] else r[|r| - 1 := r[|r| - 1] + [s[|s| - 1]]]
  }

  ghost function NonEmpty(r: seq<seq<char>>): seq<seq<char>> {
    if r == [] then [] else NonEmpty(r[..|r| - 1]) + if r[|r| - 1] == [] then [] else [r[|r| - 1]]
  }

  /** The names of a path: its non-empty parts. */
  ghost function Names(s: seq<char>): seq<seq<char>> { NonEmpty(Parts(s)) }

  lemma {:induction false} NonEmptyAppend(r: seq<seq<char>>, part: seq<char>)
    ensures NonEmpty(r + [part]) == NonEmpty(r) + if part == [] then [] else [part]
  {
    assert (r + [part])[..|r|] == r;
  }

  /** Text with no slash in it extends the last part. */
  lemma {:induction false} PartsPlain(s: seq<char>, t: seq<char>)
    requires forall i :: 0 <= i < |t| ==> t[i] != '/'
    ensures Parts(s + t) == Parts(s)[|Parts(s)| - 1 := Parts(s)[|Parts(s)| - 1] + t]
  {
    if t == [] {
      assert s + t == s && Parts(s)[|Parts(s)| - 1] + t == Parts(s)[|Parts(s)| - 1];
    } else {
      var u, c, r := t[..|t| - 1], t[|t| - 1], Parts(s);
      PartsPlain(s, u);
      assert (s + t)[..|s + t| - 1] == s + u && (s + t)[|s + t| - 1] == c;
      var last := r[|r| - 1];
      assert (last + u) + [c] == last + t;
      assert r[|r| - 1 := last + u][|r| - 1 := (last + u) + [c]] == r[|r| - 1 := last + t];
    }
  }

  lemma {:induction false} PartsSlash(s: seq<char>)
    ensures Parts(s + ['/']) == Parts(s) + [[]]
  {
    assert (s + ['/'])[..|s|] == s;
  }

  /** Parts before the one being read, when the text read so far ends in a slash. */
  ghost predicate AtPart(s: seq<char>, done: seq<seq<char>>) {
    Parts(s) == done + [[]]
  }

  lemma {:induction false} ReadName(s: seq<char>, done: seq<seq<char>>, name: seq<char>)
    requires AtPart(s, done) && forall i :: 0 <= i < |name| ==> name[i] != '/'
    ensures Parts(s + name) == done + [name]
    ensures Names(s + name) == NonEmpty(done) + if name == [] then [] else [name]
    ensures AtPart(s + name + ['/'], done + [name])
  {
    PartsPlain(s, name);
    assert [] + name == name;
    assert (done + [[]])[|done| := name] == done + [name];
    NonEmptyAppend(done, name);
    PartsSlash(s + name);
  }

  /** Line 346: the end of the name that starts at `left`. */
  method NameEnd(path: seq<char>, left: nat) returns (right: nat)
    requires left <= |path|
    ensures left <= right <= |path| && (right < |path| ==> path[right] == '/')
    ensures forall i :: left <= i < right ==> path[i] != '/'
  {
    right := left;
    while right < |path| && path[right] != '/'
      invariant left <= right <= |path|
      invariant forall i :: left <= i < right ==> path[i] != '/'
    {
      right := right + 1;
    }
  }

  lemma {:induction false} Slices(path: seq<char>, left: nat, right: nat)
    requires 1 <= left <= right <= |path|
    ensures path[1..left] + path[left..right] == path[1..right]
    ensures right < |path| ==> path[1..right] + [path[right]] == path[1..right + 1]
    ensures right == |path| ==> path[1..right] == path[1..]
  {
  }

  /** Line 348: the test `left_ptr - right_ptr > 1` is on 32-bit unsigned numbers, so it holds exactly when
  the name is not empty, unless the name has 2^32 - 1 characters. */
  predicate Differ(left: nat, right: nat)
    requires left <= right < U32
    ensures Differ(left, right) <==> left < right && right - left != U32 - 1
  {
    (left - right) % U32 > 1
  }

  /** Lines 331-371, with a search that finds every name. */
  method Walk(path: seq<char>) returns (names: seq<seq<char>>)
    requires path != [] && path[0] == '/' && |path| < U32
    ensures names == Names(path[1..])
  {
    names := [];
    var left: nat, right: nat := 1, 1;
    ghost var done: seq<seq<char>> := [];
    assert path[1..1] == [];
    while true
      invariant 1 <= left <= |path|
      invariant AtPart(path[1..left], done) && names == NonEmpty(done)
      decreases |path| - left
    {
      right := NameEnd(path, left);
      ghost var name := path[left..right];
      ReadName(path[1..left], done, name);
      NonEmptyAppend(done, name);
      Slices(path, left, right);
      var found := Differ(left, right);
      if found { names := names + [path[left..right]]; }
      if right == |path| { break; }
      done := done + [name];
      right := right + 1;
      left := right;
    }
  }
}
