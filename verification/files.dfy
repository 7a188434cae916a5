/** The working directory the scripts run in: each top-level name is a
    file or a directory, and a directory holds named entries of its own.
    Modification times are not part of this state; the scripts that order
    by them take them as a separate function. */
module Files {
  import opened Text

  datatype Node = File | Dir(children: map<string, Node>)

  predicate Distinct(s: seq<string>)
  {
    forall i, j :: 0 <= i < j < |s| ==> s[i] != s[j]
  }

  lemma DistinctSnoc(s: seq<string>, x: string)
    requires Distinct(s) && x !in s
    ensures Distinct(s + [x])
  {
    var t := s + [x];
    forall i, j | 0 <= i < j < |t|
      ensures t[i] != t[j]
    {
      assert t[i] == s[i];
      if j < |s| {
        assert t[j] == s[j];
      }
    }
  }

  /** A sequence without repetitions has as many distinct members as
      elements. */
  lemma {:induction false} DistinctCount(s: seq<string>)
    requires Distinct(s)
    ensures |set n | n in s| == |s|
  {
    if s != [] {
      var init, last := s[..|s| - 1], s[|s| - 1];
      assert Distinct(init);
      DistinctCount(init);
      assert s == init + [last];
      assert (set n | n in s) == (set n | n in init) + {last};
      assert last !in init by {
        forall i | 0 <= i < |init|
          ensures init[i] != last
        {
          assert s[i] != s[|s| - 1];
        }
      }
    }
  }

  /** Every name occurs at most once in a sequence without repetitions. */
  lemma {:induction false} DistinctMultiplicity(s: seq<string>)
    requires Distinct(s)
    ensures forall x :: multiset(s)[x] <= 1
  {
    if s != [] {
      var init, last := s[..|s| - 1], s[|s| - 1];
      assert Distinct(init);
      DistinctMultiplicity(init);
      assert s == init + [last];
      assert last !in init by {
        forall i | 0 <= i < |init|
          ensures init[i] != last
        {
          assert s[i] != s[|s| - 1];
        }
      }
    }
  }

  /** A repeated name occurs at least twice. */
  lemma RepeatMultiplicity(s: seq<string>, i: nat, j: nat)
    requires i < j < |s| && s[i] == s[j]
    ensures multiset(s)[s[i]] >= 2
  {
    assert s == s[..j] + [s[j]] + s[j + 1..];
    assert s[..j][i] == s[i];
  }

  /** Reordering a sequence without repetitions gives one without
      repetitions. */
  lemma DistinctPermutation(a: seq<string>, b: seq<string>)
    requires multiset(a) == multiset(b) && Distinct(b)
    ensures Distinct(a)
  {
    DistinctMultiplicity(b);
    forall i, j | 0 <= i < j < |a|
      ensures a[i] != a[j]
    {
      if a[i] == a[j] {
        RepeatMultiplicity(a, i, j);
      }
    }
  }

  /** Lists a set of names in an order chosen by the system, as `os.listdir`
      does: every name exactly once. */
  method Enumerate(names: set<string>) returns (listing: seq<string>)
    ensures forall n :: n in listing <==> n in names
    ensures Distinct(listing)
    ensures |listing| == |names|
  {
    listing := [];
    var left := names;
    while left != {}
      invariant left <= names
      invariant forall n :: n in listing <==> n in names && n !in left
      invariant Distinct(listing)
      invariant |listing| + |left| == |names|
      decreases left
    {
      var n :| n in left;
      listing := listing + [n];
      left := left - {n};
    }
  }

  /** The names of a listing that end in `suffix`, in listing order: the
      filter `[d for d in os.listdir(...) if d.endswith(suffix)]`. */
  function EndingWith(listing: seq<string>, suffix: string): (r: seq<string>)
    ensures forall n :: n in r <==> n in listing && EndsWith(n, suffix)
    ensures |r| <= |listing|
  {
    if listing == [] then []
    else
      var init, last := listing[..|listing| - 1], listing[|listing| - 1];
      assert listing == init + [last];
      EndingWith(init, suffix) + (if EndsWith(last, suffix) then [last] else [])
  }

  /** What `glob` matches for the pattern `*` followed by `suffix` among the
      names of a listing: names not starting with a dot that end in
      `suffix`, in listing order. */
  function Glob(listing: seq<string>, suffix: string): (r: seq<string>)
    ensures forall n :: n in r <==> n in listing && Visible(n) && EndsWith(n, suffix)
    ensures |r| <= |listing|
  {
    if listing == [] then []
    else
      var init, last := listing[..|listing| - 1], listing[|listing| - 1];
      assert listing == init + [last];
      Glob(init, suffix) + (if Visible(last) && EndsWith(last, suffix) then [last] else [])
  }

  /** Filtering a listing without repetitions keeps it without
      repetitions. */
  lemma {:induction false} GlobKeepsDistinct(listing: seq<string>, suffix: string)
    requires Distinct(listing)
    ensures Distinct(Glob(listing, suffix))
  {
    if listing != [] {
      var init, last := listing[..|listing| - 1], listing[|listing| - 1];
      assert Distinct(init);
      GlobKeepsDistinct(init, suffix);
      assert listing == init + [last];
      if Visible(last) && EndsWith(last, suffix) {
        assert last !in init by {
          forall i | 0 <= i < |init|
            ensures init[i] != last
          {
            assert listing[i] != listing[|listing| - 1];
          }
        }
        DistinctSnoc(Glob(init, suffix), last);
      }
    }
  }

  /** A directory after the files `names` were saved into it one after the
      other, each replacing whatever entry had that name. */
  function AddFiles(children: map<string, Node>, names: seq<string>): map<string, Node>
  {
    if names == [] then children
    else AddFiles(children, names[..|names| - 1])[names[|names| - 1] := File]
  }

  /** The directory holds its earlier entries and the saved names; every
      saved name is a file, and every other entry is as it was. */
  lemma {:induction false} AddFilesContents(children: map<string, Node>, names: seq<string>)
    ensures AddFiles(children, names).Keys == children.Keys + set n | n in names
    ensures forall n :: n in names ==> AddFiles(children, names)[n] == File
    ensures forall n :: n in children && n !in names ==> AddFiles(children, names)[n] == children[n]
  {
    if names != [] {
      var init := names[..|names| - 1];
      AddFilesContents(children, init);
      assert names == init + [names[|names| - 1]];
    }
  }

  lemma AddFilesSnoc(children: map<string, Node>, names: seq<string>, name: string)
    ensures AddFiles(children, names + [name]) == AddFiles(children, names)[name := File]
  {
    assert (names + [name])[..|names|] == names;
  }

  class WorkingDir {
    /** The entries of the current directory, by name. */
    var entries: map<string, Node>

    constructor (initial: map<string, Node>)
      ensures entries == initial
    {
      entries := initial;
    }

    /** `os.path.exists(name)` */
    predicate Exists(name: string)
      reads this
    {
      name in entries
    }

    /** `os.path.isdir(name)` */
    predicate IsDir(name: string)
      reads this
    {
      name in entries && entries[name].Dir?
    }

    /** `os.path.isfile(name)` */
    predicate IsFile(name: string)
      reads this
    {
      name in entries && entries[name].File?
    }

    /** `os.listdir('.')` */
    method ListRoot() returns (listing: seq<string>)
      ensures forall n :: n in listing <==> n in entries
      ensures Distinct(listing)
    {
      listing := Enumerate(entries.Keys);
    }

    /** `os.listdir(name)` for a directory `name`. */
    method ListDir(name: string) returns (listing: seq<string>)
      requires IsDir(name)
      ensures forall n :: n in listing <==> n in entries[name].children
      ensures Distinct(listing)
    {
      listing := Enumerate(entries[name].children.Keys);
    }

    /** `os.makedirs(name)` for a name that does not exist yet. */
    method MakeDir(name: string)
      requires !Exists(name)
      modifies this
      ensures entries == old(entries)[name := Dir(map[])]
    {
      entries := entries[name := Dir(map[])];
    }

    /** `os.rmdir(name)` for an empty directory. */
    method RemoveDir(name: string)
      requires IsDir(name) && entries[name].children == map[]
      modifies this
      ensures entries == old(entries) - {name}
    {
      entries := entries - {name};
    }

    /** Saving a file `name` inside the directory `dir`. */
    method WriteFile(dir: string, name: string)
      requires IsDir(dir)
      modifies this
      ensures entries == old(entries)[dir := Dir(old(entries)[dir].children[name := File])]
    {
      entries := entries[dir := Dir(entries[dir].children[name := File])];
    }

    /** `shutil.move(name, dest)` into an existing directory `dest`: the
        entry leaves the top level and appears inside `dest` under its own
        name. */
    method MoveInto(name: string, dest: string)
      requires Exists(name) && IsDir(dest) && name != dest
      modifies this
      ensures entries == (old(entries) - {name})[dest := Dir(old(entries)[dest].children[name := old(entries)[name]])]
    {
      var moved := entries[name];
      var target := entries[dest].children[name := moved];
      entries := (entries - {name})[dest := Dir(target)];
    }

    /** `shutil.copy(name, dest)` of a file into an existing directory. */
    method CopyInto(name: string, dest: string)
      requires IsFile(name) && IsDir(dest)
      modifies this
      ensures entries == old(entries)[dest := Dir(old(entries)[dest].children[name := File])]
    {
      entries := entries[dest := Dir(entries[dest].children[name := File])];
    }
  }
}
