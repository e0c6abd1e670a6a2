/** The embedded file system of `pkg/templates/templates_generated.go`: the flat asset table
    `_bindata`, the directory tree `_bintree`, and the functions that walk them. */
module Bindata {
  import opened Basics
  import opened Text

  /** Names of generator functions stand for the generators. */
  type Generator(==) = string

  datatype Tree = Node(gen: Option<Generator>, children: map<string, Tree>)

  /** `strings.Replace(name, "\\", "/", -1)` */
  function Canonical(name: string): (r: string)
    ensures |r| == |name|
    ensures forall i | 0 <= i < |name| :: r[i] == if name[i] == '\\' then '/' else name[i]
  {
    if name == "" then ""
    else [if name[0] == '\\' then '/' else name[0]] + Canonical(name[1..])
  }

  /** One component of an asset path: not empty, no separator, not a relative step. */
  predicate Ordinary(segment: string) {
    segment != "" && segment != "." && segment != ".." && '/' !in segment && '\\' !in segment
  }

  predicate OrdinaryPath(segments: seq<string>) {
    forall s | s in segments :: Ordinary(s)
  }

  /** Walking down from a node. */
  function Find(node: Tree, segments: seq<string>): Option<Tree> {
    if segments == [] then Some(node)
    else if segments[0] in node.children then Find(node.children[segments[0]], segments[1..])
    else None
  }

  predicate IsFile(root: Tree, segments: seq<string>) {
    var n := Find(root, segments);
    n.Some? && n.value.gen.Some?
  }

  predicate Reaches(root: Tree, segments: seq<string>) {
    Find(root, segments).Some?
  }

  /** The tree and the table describe the same files. Table keys are joined ordinary segments,
      files have no children, and no directory but the root is empty. */
  ghost predicate Agrees(root: Tree, table: map<string, Generator>) {
    && (forall key | key in table :: OrdinaryPath(Split(key, '/')))
    && (forall segments: seq<string> {:trigger IsFile(root, segments)} ::
          IsFile(root, segments) <==> segments != [] && OrdinaryPath(segments) && Join(segments, '/') in table)
    && (forall segments: seq<string> | IsFile(root, segments) ::
          var n := Find(root, segments).value;
          n.gen == Some(table[Join(segments, '/')]) && n.children == map[])
    && (forall segments: seq<string> | segments != [] && Reaches(root, segments) ::
          exists tail :: IsFile(root, segments + tail))
  }

  /** The relation can hold: a directory with one file, for instance. */
  lemma OneFileAgrees(dir: string, file: string, gen: Generator)
    requires Ordinary(dir) && Ordinary(file)
    ensures Agrees(Node(None, map[dir := Node(None, map[file := Node(Some(gen), map[])])]), map[Join([dir, file], '/') := gen])
  {
    var leaf := Node(Some(gen), map[]);
    var inner := Node(None, map[file := leaf]);
    var root := Node(None, map[dir := inner]);
    var path := [dir, file];
    SplitJoin(path, '/');
    assert path[1..] == [file] && [file][1..] == [];
    forall segments: seq<string>
      ensures Find(root, segments) == if segments == [] then Some(root) else if segments == [dir] then Some(inner)
                                      else if segments == path then Some(leaf) else None
    {
      if segments != [] && segments[0] == dir {
        var below := segments[1..];
        assert segments == [dir] + below && Find(root, segments) == Find(inner, below);
        if below != [] && below[0] == file {
          assert below == [file] + below[1..] && Find(inner, below) == Find(leaf, below[1..]);
        }
      }
    }
    assert IsFile(root, path) && [dir] + [file] == path && path + [] == path;
    forall segments: seq<string> | segments != [] && OrdinaryPath(segments) && Join(segments, '/') == Join(path, '/')
      ensures segments == path
    {
      SplitJoin(segments, '/');
    }
  }

  // ---------------------------------------------------------------------------------------
  // What the functions promise, in terms of the table alone
  // ---------------------------------------------------------------------------------------

  /** The common beginning of all keys below the directory `name`; the empty name is the root. */
  function Below(name: string): string {
    if name == "" then "" else Canonical(name) + "/"
  }

  predicate IsDirectory(table: map<string, Generator>, name: string) {
    name == "" || exists key | key in table :: Below(name) <= key
  }

  /** The directory has an entry: a file of this name, or a directory with files in it. */
  predicate HasEntry(table: map<string, Generator>, name: string, entry: string) {
    '/' !in entry && exists key | key in table :: IsUnder(Below(name) + entry, key)
  }

  /** The key is this file, or lies in this directory. */
  predicate IsUnder(path: string, key: string) {
    key == path || path + "/" <= key
  }

  /** The keys `RestoreAssets(dir, name)` is responsible for. */
  function KeysUnder(table: map<string, Generator>, name: string): set<string> {
    set key | key in table && (key == Canonical(name) || Below(name) <= key)
  }

  // ---------------------------------------------------------------------------------------
  // From the tree to the table
  // ---------------------------------------------------------------------------------------

  /** The components `AssetDir` walks along. */
  function Segments(name: string): seq<string> {
    if name == "" then [] else Split(Canonical(name), '/')
  }

  lemma {:induction false} FindConcat(node: Tree, a: seq<string>, b: seq<string>)
    ensures Find(node, a + b) ==
            if Find(node, a).Some? then Find(Find(node, a).value, b) else None
  {
    if a == [] {
      assert a + b == b;
    } else {
      assert (a + b)[1..] == a[1..] + b;
      if a[0] in node.children {
        FindConcat(node.children[a[0]], a[1..], b);
      }
    }
  }

  /** A key below `name` continues the components of `name`. */
  lemma KeyBelow(name: string, key: string)
    requires Below(name) <= key
    ensures Split(key, '/') == Segments(name) + Split(key[|Below(name)|..], '/')
  {
    var rest := key[|Below(name)|..];
    assert key == Below(name) + rest;
    if name != "" {
      assert key == Canonical(name) + ['/'] + rest;
      SplitConcat(Canonical(name), rest, '/');
    } else {
      assert key == rest;
    }
  }

  /** Joining the components of `name` with more components gives a key below `name`. */
  lemma JoinBelow(name: string, tail: seq<string>)
    requires tail != []
    ensures Join(Segments(name) + tail, '/') == Below(name) + Join(tail, '/')
  {
    if name == "" {
      assert Segments(name) + tail == tail;
    } else {
      SplitPieces(Canonical(name), '/');
      JoinConcat(Segments(name), tail, '/');
    }
  }

  lemma SomeFileBelow(root: Tree, table: map<string, Generator>, segments: seq<string>)
    returns (tail: seq<string>)
    requires Agrees(root, table) && segments != [] && Find(root, segments).Some?
    ensures OrdinaryPath(segments + tail) && Join(segments + tail, '/') in table
  {
    assert Reaches(root, segments);
    tail :| IsFile(root, segments + tail);
  }

  lemma KeyIsFile(root: Tree, table: map<string, Generator>, key: string)
    requires Agrees(root, table) && key in table
    ensures IsFile(root, Split(key, '/'))
  {
    SplitPieces(key, '/');
  }

  /** A walk that succeeds ends in a file of the table or in one of its directories, and every
      file and directory of the table is found. */
  lemma FoundIff(root: Tree, table: map<string, Generator>, name: string)
    requires Agrees(root, table)
    ensures Find(root, Segments(name)).Some? <==> IsDirectory(table, name) || Canonical(name) in table
    ensures IsFile(root, Segments(name)) <==> name != "" && Canonical(name) in table
    ensures IsDirectory(table, name) ==> !IsFile(root, Segments(name))
  {
    var segments := Segments(name);
    if name != "" {
      SplitPieces(Canonical(name), '/');
      if Canonical(name) in table {
        KeyIsFile(root, table, Canonical(name));
      }
      if Find(root, segments).Some? {
        var tail := SomeFileBelow(root, table, segments);
        if tail == [] {
          assert segments + tail == segments;
        } else {
          JoinBelow(name, tail);
        }
      }
    }
    if key :| key in table && Below(name) <= key {
      var rest := Split(key[|Below(name)|..], '/');
      KeyBelow(name, key);
      KeyIsFile(root, table, key);
      FindConcat(root, segments, rest);
      var node := Find(root, segments).value;
      assert rest[0] in node.children;
      assert !IsFile(root, segments);
    }
  }

  /** A table key that goes on from `name` by `entry` makes it an entry. */
  lemma KeyThrough(table: map<string, Generator>, name: string, entry: string, tail: seq<string>)
    requires var path := Segments(name) + [entry] + tail; OrdinaryPath(path) && Join(path, '/') in table
    ensures HasEntry(table, name, entry) && Ordinary(entry)
  {
    var all := [entry] + tail;
    assert Segments(name) + [entry] + tail == Segments(name) + all;
    assert entry in Segments(name) + all;
    JoinBelow(name, all);
    assert all[1..] == tail;
    assert IsUnder(Below(name) + entry, Below(name) + Join(all, '/'));
  }

  lemma ChildIsFound(root: Tree, segments: seq<string>, entry: string)
    requires Find(root, segments).Some? && entry in Find(root, segments).value.children
    ensures Find(root, segments + [entry]).Some?
  {
    FindConcat(root, segments, [entry]);
  }

  lemma ChildIsEntry(root: Tree, table: map<string, Generator>, name: string, entry: string)
    requires Agrees(root, table) && Find(root, Segments(name)).Some?
    requires entry in Find(root, Segments(name)).value.children
    ensures HasEntry(table, name, entry) && Ordinary(entry)
  {
    ChildIsFound(root, Segments(name), entry);
    var tail := SomeFileBelow(root, table, Segments(name) + [entry]);
    KeyThrough(table, name, entry, tail);
  }

  /** The components of a key under an entry go on from `name` by the entry. */
  lemma KeyPastEntry(name: string, entry: string, key: string) returns (parts: seq<string>)
    requires '/' !in entry && IsUnder(Below(name) + entry, key)
    ensures Split(key, '/') == Segments(name) + parts
    ensures parts != [] && parts[0] == entry
  {
    KeyBelow(name, key);
    var rest := key[|Below(name)|..];
    parts := Split(rest, '/');
    SplitPlain(entry, '/');
    if key != Below(name) + entry {
      assert rest == entry + ['/'] + rest[|entry| + 1..];
      SplitConcat(entry, rest[|entry| + 1..], '/');
    } else {
      assert rest == entry;
    }
  }

  lemma EntryIsChild(root: Tree, table: map<string, Generator>, name: string, entry: string)
    requires Agrees(root, table) && HasEntry(table, name, entry)
    ensures Find(root, Segments(name)).Some?
    ensures entry in Find(root, Segments(name)).value.children
  {
    var key :| key in table && IsUnder(Below(name) + entry, key);
    KeyIsFile(root, table, key);
    var parts := KeyPastEntry(name, entry, key);
    FindConcat(root, Segments(name), parts);
  }

  /** The children of a directory's node are its entries. */
  lemma ChildIff(root: Tree, table: map<string, Generator>, name: string, entry: string)
    requires Agrees(root, table) && Find(root, Segments(name)).Some?
    ensures entry in Find(root, Segments(name)).value.children <==> HasEntry(table, name, entry)
    ensures HasEntry(table, name, entry) ==> Ordinary(entry)
  {
    if entry in Find(root, Segments(name)).value.children {
      ChildIsEntry(root, table, name, entry);
    }
    if HasEntry(table, name, entry) {
      EntryIsChild(root, table, name, entry);
      ChildIsEntry(root, table, name, entry);
    }
  }

  // ---------------------------------------------------------------------------------------
  // AssetDir
  // ---------------------------------------------------------------------------------------

  /** `AssetDir` succeeds exactly on the directories of the table, and lists each entry of the
      directory exactly once, in some order. */
  method AssetDir(bintree: Tree, ghost table: map<string, Generator>, name: string)
    returns (listing: Option<seq<string>>)
    requires Agrees(bintree, table)
    ensures listing.Some? <==> IsDirectory(table, name)
    ensures listing.Some? ==>
              NoDuplicates(listing.value) && forall e :: e in listing.value <==> HasEntry(table, name, e)
  {
    FoundIff(bintree, table, name);
    var node := bintree;
    if |name| != 0 {
      var pathList := Split(Canonical(name), '/');
      for i := 0 to |pathList|
        invariant Find(bintree, pathList) == Find(node, pathList[i..])
      {
        assert pathList[i..][0] == pathList[i] && pathList[i..][1..] == pathList[i + 1..];
        if pathList[i] !in node.children {
          return None;
        }
        node := node.children[pathList[i]];
      }
      assert pathList[|pathList|..] == [];
    }
    assert Find(bintree, Segments(name)) == Some(node);
    if node.gen != None {
      return None;
    }
    assert IsDirectory(table, name);
    var rv := [];
    var todo := node.children.Keys;
    while todo != {}
      invariant todo <= node.children.Keys
      invariant forall e :: e in rv <==> e in node.children && e !in todo
      invariant NoDuplicates(rv)
    {
      var childName :| childName in todo;
      todo := todo - {childName};
      rv := rv + [childName];
    }
    forall e ensures e in rv <==> HasEntry(table, name, e) {
      ChildIff(bintree, table, name, e);
    }
    return Some(rv);
  }

  // ---------------------------------------------------------------------------------------
  // filepath.Join
  // ---------------------------------------------------------------------------------------

  /** The loop of `filepath.Clean` over the '/'-separated components. */
  function Reduce(parts: seq<string>, rooted: bool, done: seq<string>): seq<string> {
    if parts == [] then done
    else if parts[0] == "" || parts[0] == "." then Reduce(parts[1..], rooted, done)
    else if parts[0] == ".." then
      if done != [] && done[|done| - 1] != ".." then Reduce(parts[1..], rooted, done[..|done| - 1])
      else if rooted then Reduce(parts[1..], rooted, done)
      else Reduce(parts[1..], rooted, done + [".."])
    else Reduce(parts[1..], rooted, done + [parts[0]])
  }

  /** A plain component and the ".." behind it cancel, wherever they stand. */
  lemma {:induction false} ReduceCancels(before: seq<string>, part: string, after: seq<string>, rooted: bool, done: seq<string>)
    requires Plain(part)
    ensures Reduce(before + ([part, ".."] + after), rooted, done) == Reduce(before + after, rooted, done)
    decreases |before|
  {
    if before == [] {
      var rest := [part, ".."] + after;
      assert before + rest == rest && before + after == after;
      assert rest[1..][0] == ".." && rest[1..][1..] == after;
      assert (done + [part])[..|done|] == done;
    } else {
      var all, short := before + ([part, ".."] + after), before + after;
      assert all[1..] == before[1..] + ([part, ".."] + after) && short[1..] == before[1..] + after;
      var next := if before[0] == "" || before[0] == "." then done
                  else if before[0] != ".." then done + [before[0]]
                  else if done != [] && done[|done| - 1] != ".." then done[..|done| - 1]
                  else if rooted then done else done + [".."];
      ReduceCancels(before[1..], part, after, rooted, next);
    }
  }

  function Clean(path: string): string {
    var rooted := path != "" && path[0] == '/';
    var cleaned := Join(Reduce(Split(path, '/'), rooted, []), '/');
    if rooted then "/" + cleaned else if cleaned == "" then "." else cleaned
  }

  /** `filepath.Join(name, child)` for a non-empty child: empty elements are ignored. */
  function PathJoin(name: string, child: string): string {
    if name == "" then Clean(child) else Clean(name + "/" + child)
  }

  predicate Plain(part: string) {
    part != "" && part != "." && part != ".."
  }

  lemma {:induction false} ReducePlain(parts: seq<string>, rooted: bool, done: seq<string>)
    requires forall p | p in parts :: Plain(p)
    ensures Reduce(parts, rooted, done) == done + parts
  {
    if parts != [] {
      assert Plain(parts[0]);
      ReducePlain(parts[1..], rooted, done + [parts[0]]);
      assert done + [parts[0]] + parts[1..] == done + parts;
    }
  }

  lemma CleanPlain(path: string)
    requires forall p | p in Split(path, '/') :: Plain(p)
    ensures Clean(path) == path
  {
    var parts := Split(path, '/');
    SplitPieces(path, '/');
    assert Plain(parts[0]);
    assert !(path != "" && path[0] == '/');
    ReducePlain(parts, false, []);
    assert [] + parts == parts;
  }

  lemma {:induction false} CanonicalConcat(a: string, b: string)
    ensures Canonical(a + b) == Canonical(a) + Canonical(b)
  {
    if a == "" {
      assert a + b == b;
    } else {
      assert (a + b)[1..] == a[1..] + b;
      CanonicalConcat(a[1..], b);
    }
  }

  lemma CanonicalFixed(s: string)
    requires '\\' !in s
    ensures Canonical(s) == s
  {}

  lemma CanonicalAtSlash(a: string, b: string)
    ensures Canonical(a + ['/'] + b) == Canonical(a) + ['/'] + Canonical(b)
  {
    CanonicalConcat(a + ['/'], b);
    CanonicalConcat(a, ['/']);
  }

  /** A component of `name` without backslashes is a component of its canonical form. */
  lemma {:induction false} PartsSurvive(name: string, part: string)
    requires part in Split(name, '/') && '\\' !in part
    ensures part in Split(Canonical(name), '/')
    decreases |Split(name, '/')|
  {
    var parts := Split(name, '/');
    SplitPieces(name, '/');
    CanonicalFixed(part);
    SplitPlain(part, '/');
    if |parts| == 1 {
      assert name == parts[0];
    } else {
      var rest := Join(parts[1..], '/');
      CanonicalAtSlash(parts[0], rest);
      SplitConcat(Canonical(parts[0]), Canonical(rest), '/');
      SplitJoin(parts[1..], '/');
      if part != parts[0] {
        PartsSurvive(rest, part);
      }
    }
  }

  /** Descending from a directory to one of its entries: `filepath.Join` finds nothing to
      clean, also when the caller's name uses backslashes. */
  lemma DescendOneLevel(root: Tree, table: map<string, Generator>, name: string, child: string)
    requires Agrees(root, table) && HasEntry(table, name, child)
    ensures PathJoin(name, child) == if name == "" then child else name + "/" + child
    ensures Canonical(PathJoin(name, child)) == Below(name) + child
    ensures PathJoin(name, child) != ""
  {
    EntryIsChild(root, table, name, child);
    ChildIff(root, table, name, child);
    CanonicalFixed(child);
    SplitPlain(child, '/');
    if name == "" {
      CleanPlain(child);
    } else {
      assert name + "/" + child == name + ['/'] + child;
      SplitConcat(name, child, '/');
      forall p | p in Split(name, '/') ensures Plain(p) {
        DirectoryPartIsPlain(root, table, name, child, p);
      }
      CleanPlain(name + "/" + child);
      CanonicalAtSlash(name, child);
    }
  }

  lemma DirectoryPartIsPlain(root: Tree, table: map<string, Generator>, name: string, child: string, part: string)
    requires Agrees(root, table) && HasEntry(table, name, child)
    requires name != "" && part in Split(name, '/')
    ensures Plain(part)
  {
    var key :| key in table && IsUnder(Below(name) + child, key);
    NamePartIsPlain(name, key, part);
  }

  lemma NamePartIsPlain(name: string, key: string, part: string)
    requires name != "" && part in Split(name, '/')
    requires Below(name) <= key && OrdinaryPath(Split(key, '/'))
    ensures Plain(part)
  {
    if '\\' !in part {
      PartsSurvive(name, part);
      KeyBelow(name, key);
      assert part in Split(key, '/');
    }
  }

  // ---------------------------------------------------------------------------------------
  // RestoreAssets
  // ---------------------------------------------------------------------------------------

  /** Which entry of `name` a key lies under. */
  lemma KeyUnderEntry(table: map<string, Generator>, name: string, key: string) returns (entry: string)
    requires key in table && Below(name) <= key
    ensures HasEntry(table, name, entry) && IsUnder(Below(name) + entry, key)
  {
    var rest := key[|Below(name)|..];
    var parts := Split(rest, '/');
    entry := parts[0];
    SplitPieces(rest, '/');
    assert entry in parts;
    assert key == Below(name) + rest;
    if |parts| > 1 {
      assert rest == entry + ['/'] + Join(parts[1..], '/');
      assert Below(name) + entry + "/" <= key;
    }
    assert IsUnder(Below(name) + entry, key);
  }

  lemma EntryIsUnique(prefix: string, key: string, a: string, b: string)
    requires '/' !in a && '/' !in b
    requires IsUnder(prefix + a, key) && IsUnder(prefix + b, key)
    ensures a == b
  {
    var rest := key[|prefix|..];
    assert a <= rest && (|rest| > |a| ==> rest[|a|] == '/');
    assert b <= rest && (|rest| > |b| ==> rest[|b|] == '/');
    assert forall i | 0 <= i < |a| :: rest[i] == a[i] != '/';
    assert forall i | 0 <= i < |b| :: rest[i] == b[i] != '/';
    assert a == rest[..|a|] && b == rest[..|b|];
  }

  /** The keys under the entries that have been handled. */
  ghost function KeysUnderEntries(table: map<string, Generator>, name: string, entries: seq<string>): set<string> {
    set key | key in table && exists e :: e in entries && IsUnder(Below(name) + e, key)
  }

  /** The keys under one entry are those the recursive call is responsible for. */
  lemma KeysOfChild(table: map<string, Generator>, name: string, child: string, path: string)
    requires path != "" && Canonical(path) == Below(name) + child
    ensures KeysUnder(table, path) == set key | key in table && IsUnder(Below(name) + child, key)
  {}

  /** All entries together are responsible for all keys of the directory. */
  lemma KeysOfAllEntries(root: Tree, table: map<string, Generator>, name: string, entries: seq<string>)
    requires Agrees(root, table) && IsDirectory(table, name)
    requires forall e :: e in entries <==> HasEntry(table, name, e)
    ensures KeysUnderEntries(table, name, entries) == KeysUnder(table, name)
  {
    FoundIff(root, table, name);
    forall key | key in table
      ensures key in KeysUnderEntries(table, name, entries) <==> key in KeysUnder(table, name)
    {
      if Below(name) <= key {
        var entry := KeyUnderEntry(table, name, key);
        assert entry in entries;
      }
    }
  }

  /** Between two states of a log, keys of this set were appended, each at most once, and
      all of them if `all` holds. */
  ghost predicate Wrote(before: seq<string>, after: seq<string>, keys: set<string>, all: bool) {
    && before <= after
    && NoDuplicates(after[|before|..])
    && (forall key | key in after[|before|..] :: key in keys)
    && (all ==> forall key | key in keys :: key in after[|before|..])
  }

  lemma WroteBoth(a: seq<string>, b: seq<string>, c: seq<string>, first: set<string>, second: set<string>, all: bool)
    requires Wrote(a, b, first, true) && Wrote(b, c, second, all) && first !! second
    ensures Wrote(a, c, first + second, all)
  {
    var x, y := b[|a|..], c[|b|..];
    assert c[|a|..] == x + y;
    forall i, j | 0 <= i < j < |x + y| ensures (x + y)[i] != (x + y)[j] {
      if i < |x| <= j {
        assert x[i] in x && y[j - |x|] in y;
      } else if j < |x| {
        assert x[i] != x[j];
      } else {
        assert y[i - |x|] != y[j - |x|];
      }
    }
  }

  /** Each entry adds its own keys, different from those of the entries before it. */
  lemma NextEntry(table: map<string, Generator>, name: string, entries: seq<string>, i: nat)
    requires i < |entries| && NoDuplicates(entries) && forall e | e in entries :: '/' !in e
    ensures var mine := set key | key in table && IsUnder(Below(name) + entries[i], key);
            && KeysUnderEntries(table, name, entries[..i + 1]) == KeysUnderEntries(table, name, entries[..i]) + mine
            && KeysUnderEntries(table, name, entries[..i]) !! mine
  {
    assert entries[..i + 1] == entries[..i] + [entries[i]];
    forall key, e | e in entries[..i] && IsUnder(Below(name) + e, key) && IsUnder(Below(name) + entries[i], key)
      ensures false
    {
      EntryIsUnique(Below(name), key, e, entries[i]);
      assert false;
    }
  }

  lemma EntriesAreKeysOfName(table: map<string, Generator>, name: string, entries: seq<string>)
    ensures KeysUnderEntries(table, name, entries) <= KeysUnder(table, name)
  {}

  /** A directory to restore into. `broken` names the assets whose file cannot be written, and
      `untimed` those whose time stamps cannot be set on the file written; `restored` logs the
      keys of the files written, in order. */
  class Restorer {
    const table: map<string, Generator>
    const bintree: Tree
    const broken: set<string>
    const untimed: set<string>
    var restored: seq<string>

    constructor (bintree: Tree, table: map<string, Generator>, broken: set<string>, untimed: set<string>)
      ensures this.table == table && this.bintree == bintree && restored == []
      ensures this.broken == broken && this.untimed == untimed
    {
      this.table, this.bintree, this.broken, this.untimed, restored := table, bintree, broken, untimed, [];
    }

    /** Look the asset up, write its file, set its time stamps. The last may fail with the file
        already written. */
    method RestoreAsset(name: string) returns (ok: bool)
      modifies this
      ensures ok <==> Canonical(name) in table && Canonical(name) !in broken + untimed
      ensures restored == if Canonical(name) in table && Canonical(name) !in broken
                          then old(restored) + [Canonical(name)] else old(restored)
    {
      if Canonical(name) !in table || Canonical(name) in broken {
        return false;
      }
      restored := restored + [Canonical(name)];
      ok := Canonical(name) !in untimed;
    }

    /** Restoring a directory writes the file of every key below it exactly once and nothing
        else; it succeeds exactly when there is something to restore and every operation on it
        succeeds. After a failure, what was written is part of the same keys, each at most once. */
    method RestoreAssets(name: string, ghost bound: nat) returns (ok: bool)
      requires Agrees(bintree, table) && forall key | key in table :: |key| <= bound
      modifies this
      ensures Wrote(old(restored), restored, KeysUnder(table, name) - broken, ok)
      ensures ok <==> (name == "" || KeysUnder(table, name) != {}) && KeysUnder(table, name) !! broken + untimed
      decreases if |name| <= bound then bound - |name| + 1 else 0
    {
      var children := AssetDir(bintree, table, name);
      if children == None {
        ok := RestoreAsset(name);
        assert KeysUnder(table, name) == if Canonical(name) in table then {Canonical(name)} else {};
        return;
      }
      var entries := children.value;
      forall e | e in entries ensures '/' !in e {
        assert HasEntry(table, name, e);
      }
      KeysOfAllEntries(bintree, table, name, entries);
      if key :| key in table && Below(name) <= key {
        assert key in KeysUnder(table, name);
      }
      for i := 0 to |entries|
        invariant Wrote(old(restored), restored, KeysUnderEntries(table, name, entries[..i]), true)
        invariant KeysUnderEntries(table, name, entries[..i]) !! broken + untimed
      {
        ok := RestoreChild(name, entries, i, bound, old(restored));
        if !ok {
          return;
        }
      }
      assert entries[..|entries|] == entries;
      ok := true;
    }

    /** The body of the loop: the recursive call for one entry. */
    method RestoreChild(name: string, entries: seq<string>, i: nat, ghost bound: nat, ghost start: seq<string>)
      returns (ok: bool)
      requires Agrees(bintree, table) && forall key | key in table :: |key| <= bound
      requires i < |entries| && NoDuplicates(entries)
      requires forall e | e in entries :: HasEntry(table, name, e) && '/' !in e
      requires Wrote(start, restored, KeysUnderEntries(table, name, entries[..i]), true)
      requires KeysUnderEntries(table, name, entries[..i]) !! broken + untimed
      modifies this
      ensures Wrote(start, restored, KeysUnder(table, name) - broken, false)
      ensures ok ==> Wrote(start, restored, KeysUnderEntries(table, name, entries[..i + 1]), true)
      ensures ok <==> KeysUnderEntries(table, name, entries[..i + 1]) !! broken + untimed
      ensures !ok ==> !(KeysUnder(table, name) !! broken + untimed)
      decreases if |name| <= bound then bound - |name| + 1 else 0, 0
    {
      var path := PathJoin(name, entries[i]);
      DescendOneLevel(bintree, table, name, entries[i]);
      KeysOfChild(table, name, entries[i], path);
      NextEntry(table, name, entries, i);
      EntriesAreKeysOfName(table, name, entries[..i + 1]);
      var key :| key in table && IsUnder(Below(name) + entries[i], key);
      assert key in KeysUnder(table, path);
      assert |name| < |path| <= |key| <= bound;
      ghost var before := restored;
      ok := RestoreAssets(path, bound);
      WroteBoth(start, before, restored, KeysUnderEntries(table, name, entries[..i]), KeysUnder(table, path) - broken, ok);
    }
  }
}
