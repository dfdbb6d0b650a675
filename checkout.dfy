/**
 * `checkout(hash, gitDir, basePath)` (app/modules/checkout.js): the tree
 * object at `hash` is read from the store under `gitDir` and materialised
 * under `basePath`, entry by entry, recursing into sub-trees.
 *
 * Each nested call takes one frame of the JavaScript stack: `depth` is the
 * number of frames left, and a call made with none left throws a
 * `RangeError`.
 */
module Checkout {
  import opened Js
  import opened Results
  import opened Fs
  import opened Objects

  const NOT_A_TREE := "Not a tree"
  const STACK_EXHAUSTED := "RangeError: Maximum call stack size exceeded"
  /** The refusal of the checked walk, which the program does not have. */
  const BAD_NAME := "Invalid path in tree"

  /** The file mode of a regular file and of a sub-tree. */
  const FILE_MODE := "100644"
  const TREE_MODE := "40000"

  /** `checkout(hash, gitDir, basePath)` on a tree: the tree's entries are
      checked out in order; a throw ends the walk and keeps what was done.
      With `checked` false this is the program as written; with `checked`
      true it is the corrected walk, which refuses an entry name that is not
      a plain component before using it. */
  function CheckoutTree(nodes: Tree, hash: string, gitDir: Path, basePath: Path, depth: nat, checked: bool): Run
    decreases depth, 0
  {
    if depth == 0 then Run(nodes, Some(STACK_EXHAUSTED))
    else
      match ReadGitObject(nodes, hash, gitDir)
      case Err(e) => Run(nodes, Some(e))
      case Ok(obj) =>
        if obj.kind != "tree" then Run(nodes, Some(NOT_A_TREE))
        else CheckoutEntries(nodes, TreeEntriesFrom(obj.content, 0), gitDir, basePath, depth - 1, checked)
  }

  /** The loop over the entries, from the first on. */
  function CheckoutEntries(nodes: Tree, entries: seq<TreeEntry>, gitDir: Path, basePath: Path, depth: nat, checked: bool): Run
    decreases depth, |entries| + 2
  {
    if entries == [] then Run(nodes, None)
    else
      var r := CheckoutEntry(nodes, entries[0], gitDir, basePath, depth, checked);
      if r.err.Some? then r else CheckoutEntries(r.nodes, entries[1..], gitDir, basePath, depth, checked)
  }

  /** One entry: a file gets the content of the object it names (whatever
      its kind), a sub-tree gets a new directory (a plain `mkdirSync`, so an
      existing one is an error) and is checked out into it, and any other mode
      is passed over. The name is joined to `basePath` unchecked, so ".." and
      slashes in it move the target (see `ParentEscape`). */
  function CheckoutEntry(nodes: Tree, entry: TreeEntry, gitDir: Path, basePath: Path, depth: nat, checked: bool): Run
    decreases depth, 1
  {
    if checked && (entry.mode == FILE_MODE || entry.mode == TREE_MODE) && !Plain(entry.name) then
      Run(nodes, Some(BAD_NAME))
    else if entry.mode == FILE_MODE then
      match ReadGitObject(nodes, entry.hash, gitDir)
      case Err(e) => Run(nodes, Some(e))
      case Ok(blob) => WriteFile(nodes, PathJoin(basePath, [entry.name]), blob.content)
    else if entry.mode == TREE_MODE then
      var folder := PathJoin(basePath, [entry.name]);
      var made := Mkdir(nodes, folder);
      if made.err.Some? then made else CheckoutTree(made.nodes, entry.hash, gitDir, folder, depth, checked)
    else Run(nodes, None)
  }

  /** `checkout(hash, gitDir, basePath)` on the file system; a thrown error is
      returned. */
  method Checkout(fs: FileSystem, hash: string, gitDir: Path, basePath: Path, depth: nat) returns (err: Option<string>)
    modifies fs
    ensures Run(fs.nodes, err) == CheckoutTree(old(fs.nodes), hash, gitDir, basePath, depth, false)
    decreases depth, 0
  {
    if depth == 0 {
      return Some(STACK_EXHAUSTED);
    }
    var obj := ReadGitObject(fs.nodes, hash, gitDir);
    if obj.Err? {
      return Some(obj.error);
    }
    if obj.value.kind != "tree" {
      return Some(NOT_A_TREE);
    }
    err := CheckoutAll(fs, obj.value.content, gitDir, basePath, depth - 1);
  }

  /** The entries of the tree, parsed from its content, then the loop of
      `checkout` over them. */
  method CheckoutAll(fs: FileSystem, content: seq<byte>, gitDir: Path, basePath: Path, depth: nat) returns (err: Option<string>)
    modifies fs
    ensures Run(fs.nodes, err) == CheckoutEntries(old(fs.nodes), TreeEntriesFrom(content, 0), gitDir, basePath, depth, false)
    decreases depth, 2
  {
    var entries := ParseTreeEntries(content);
    for k := 0 to |entries|
      invariant CheckoutEntries(fs.nodes, entries[k..], gitDir, basePath, depth, false)
        == CheckoutEntries(old(fs.nodes), entries, gitDir, basePath, depth, false)
    {
      ghost var before := fs.nodes;
      EntriesStep(before, entries[k..], gitDir, basePath, depth, false);
      assert entries[k..][1..] == entries[k + 1..];
      err := CheckoutOne(fs, entries[k], gitDir, basePath, depth);
      if err.Some? {
        return;
      }
    }
    assert entries[|entries|..] == [];
    return None;
  }

  /** The walk over a non-empty list is its first entry, then the rest unless
      the first one threw. */
  lemma EntriesStep(nodes: Tree, entries: seq<TreeEntry>, gitDir: Path, basePath: Path, depth: nat, checked: bool)
    requires entries != []
    ensures var r := CheckoutEntry(nodes, entries[0], gitDir, basePath, depth, checked);
      CheckoutEntries(nodes, entries, gitDir, basePath, depth, checked)
        == if r.err.Some? then r else CheckoutEntries(r.nodes, entries[1..], gitDir, basePath, depth, checked)
  {
  }

  /** The body of the loop in `checkout`, for one entry. */
  method CheckoutOne(fs: FileSystem, entry: TreeEntry, gitDir: Path, basePath: Path, depth: nat) returns (err: Option<string>)
    modifies fs
    ensures Run(fs.nodes, err) == CheckoutEntry(old(fs.nodes), entry, gitDir, basePath, depth, false)
    decreases depth, 1
  {
    if entry.mode == FILE_MODE {
      var blob := ReadGitObject(fs.nodes, entry.hash, gitDir);
      if blob.Err? {
        return Some(blob.error);
      }
      err := fs.WriteFileSync(PathJoin(basePath, [entry.name]), blob.value.content);
    } else if entry.mode == TREE_MODE {
      var folder := PathJoin(basePath, [entry.name]);
      err := fs.MkdirSync(folder, false);
      if err.Some? {
        return;
      }
      err := Checkout(fs, entry.hash, gitDir, folder, depth);
    } else {
      err := None;
    }
  }

  /** The path of an entry with a plain name is `basePath` and that name. */
  lemma EntryPath(basePath: Path, name: string)
    requires Plain(name)
    ensures PathJoin(basePath, [name]) == basePath + [name]
  {
    PathJoinAll(basePath, [name]);
  }

  /** What a checkout under `basePath` may do: every entry outside it stays as
      it was, and every new entry lies under it. */
  ghost predicate Confined(before: Tree, after: Tree, basePath: Path)
  {
    && (forall q :: q in before && !(basePath <= q) ==> q in after && after[q] == before[q])
    && (forall q :: q in after && q !in before ==> basePath <= q)
  }

  lemma ConfinedTrans(a: Tree, b: Tree, c: Tree, basePath: Path)
    requires Confined(a, b, basePath) && Confined(b, c, basePath)
    ensures Confined(a, c, basePath)
  {
  }

  lemma ConfinedWiden(a: Tree, b: Tree, inner: Path, basePath: Path)
    requires Confined(a, b, inner) && basePath <= inner
    ensures Confined(a, b, basePath)
  {
  }

  lemma ConfinedRefl(nodes: Tree, basePath: Path)
    ensures Confined(nodes, nodes, basePath)
  {
  }

  /** The checked walk changes nothing outside `basePath` and creates entries
      only under it. */
  lemma {:induction false} CheckedTreeConfined(nodes: Tree, hash: string, gitDir: Path, basePath: Path, depth: nat)
    ensures Confined(nodes, CheckoutTree(nodes, hash, gitDir, basePath, depth, true).nodes, basePath)
    decreases depth, 0
  {
    if depth > 0 && ReadGitObject(nodes, hash, gitDir).Ok? && ReadGitObject(nodes, hash, gitDir).value.kind == "tree" {
      CheckedEntriesConfined(nodes, TreeEntriesFrom(ReadGitObject(nodes, hash, gitDir).value.content, 0), gitDir, basePath, depth - 1);
    } else {
      NoTreeUnchanged(nodes, hash, gitDir, basePath, depth, true);
      ConfinedRefl(nodes, basePath);
    }
  }

  /** Without a tree to check out, nothing changes. */
  lemma NoTreeUnchanged(nodes: Tree, hash: string, gitDir: Path, basePath: Path, depth: nat, checked: bool)
    requires !(depth > 0 && ReadGitObject(nodes, hash, gitDir).Ok? && ReadGitObject(nodes, hash, gitDir).value.kind == "tree")
    ensures CheckoutTree(nodes, hash, gitDir, basePath, depth, checked).nodes == nodes
  {
  }

  lemma {:induction false} CheckedEntriesConfined(nodes: Tree, entries: seq<TreeEntry>, gitDir: Path, basePath: Path, depth: nat)
    ensures Confined(nodes, CheckoutEntries(nodes, entries, gitDir, basePath, depth, true).nodes, basePath)
    decreases depth, |entries| + 2
  {
    if entries != [] {
      var r := CheckoutEntry(nodes, entries[0], gitDir, basePath, depth, true);
      CheckedEntryConfined(nodes, entries[0], gitDir, basePath, depth);
      if r.err.None? {
        CheckedEntriesConfined(r.nodes, entries[1..], gitDir, basePath, depth);
        ConfinedTrans(nodes, r.nodes, CheckoutEntries(r.nodes, entries[1..], gitDir, basePath, depth, true).nodes, basePath);
      }
    }
  }

  lemma {:induction false} CheckedEntryConfined(nodes: Tree, entry: TreeEntry, gitDir: Path, basePath: Path, depth: nat)
    ensures Confined(nodes, CheckoutEntry(nodes, entry, gitDir, basePath, depth, true).nodes, basePath)
    decreases depth, 1
  {
    if (entry.mode == FILE_MODE || entry.mode == TREE_MODE) && Plain(entry.name) {
      var target := PathJoin(basePath, [entry.name]);
      EntryPath(basePath, entry.name);
      if entry.mode == FILE_MODE {
        if ReadGitObject(nodes, entry.hash, gitDir).Ok? {
          var content := ReadGitObject(nodes, entry.hash, gitDir).value.content;
          WriteFileEffect(nodes, target, content);
        }
      } else {
        var made := Mkdir(nodes, target);
        assert Confined(nodes, made.nodes, basePath);
        if made.err.None? {
          CheckedTreeConfined(made.nodes, entry.hash, gitDir, target, depth);
          ConfinedWiden(made.nodes, CheckoutTree(made.nodes, entry.hash, gitDir, target, depth, true).nodes, target, basePath);
          ConfinedTrans(nodes, made.nodes, CheckoutTree(made.nodes, entry.hash, gitDir, target, depth, true).nodes, basePath);
        }
      }
    }
  }

  /** Where the checked walk refuses no name, every name the walk met was a
      plain component, and the program's walk does exactly what it does. */
  lemma {:induction false} TreeAsChecked(nodes: Tree, hash: string, gitDir: Path, basePath: Path, depth: nat)
    requires CheckoutTree(nodes, hash, gitDir, basePath, depth, true).err != Some(BAD_NAME)
    ensures CheckoutTree(nodes, hash, gitDir, basePath, depth, false) == CheckoutTree(nodes, hash, gitDir, basePath, depth, true)
    decreases depth, 0
  {
    if depth > 0 && ReadGitObject(nodes, hash, gitDir).Ok? && ReadGitObject(nodes, hash, gitDir).value.kind == "tree" {
      EntriesAsChecked(nodes, TreeEntriesFrom(ReadGitObject(nodes, hash, gitDir).value.content, 0), gitDir, basePath, depth - 1);
    }
  }

  lemma {:induction false} EntriesAsChecked(nodes: Tree, entries: seq<TreeEntry>, gitDir: Path, basePath: Path, depth: nat)
    requires CheckoutEntries(nodes, entries, gitDir, basePath, depth, true).err != Some(BAD_NAME)
    ensures CheckoutEntries(nodes, entries, gitDir, basePath, depth, false) == CheckoutEntries(nodes, entries, gitDir, basePath, depth, true)
    decreases depth, |entries| + 2
  {
    if entries != [] {
      var r := CheckoutEntry(nodes, entries[0], gitDir, basePath, depth, true);
      EntryAsChecked(nodes, entries[0], gitDir, basePath, depth);
      if r.err.None? {
        EntriesAsChecked(r.nodes, entries[1..], gitDir, basePath, depth);
      }
    }
  }

  lemma {:induction false} EntryAsChecked(nodes: Tree, entry: TreeEntry, gitDir: Path, basePath: Path, depth: nat)
    requires CheckoutEntry(nodes, entry, gitDir, basePath, depth, true).err != Some(BAD_NAME)
    ensures CheckoutEntry(nodes, entry, gitDir, basePath, depth, false) == CheckoutEntry(nodes, entry, gitDir, basePath, depth, true)
    decreases depth, 1
  {
    if entry.mode == TREE_MODE {
      var folder := PathJoin(basePath, [entry.name]);
      var made := Mkdir(nodes, folder);
      if made.err.None? {
        TreeAsChecked(made.nodes, entry.hash, gitDir, folder, depth);
      }
    }
  }

  /** The program's checkout changes nothing outside `basePath` and creates
      entries only under it, provided every entry name it meets is a plain
      component (the checked walk refuses none). */
  lemma TreeConfined(nodes: Tree, hash: string, gitDir: Path, basePath: Path, depth: nat)
    requires CheckoutTree(nodes, hash, gitDir, basePath, depth, true).err != Some(BAD_NAME)
    ensures Confined(nodes, CheckoutTree(nodes, hash, gitDir, basePath, depth, false).nodes, basePath)
  {
    TreeAsChecked(nodes, hash, gitDir, basePath, depth);
    CheckedTreeConfined(nodes, hash, gitDir, basePath, depth);
  }

  /** A file entry named "../x" under the directory "out" is written to "x"
      beside "out", outside the base, although its object and the working
      directory are all the walk touched. */
  lemma ParentEscape(nodes: Tree, gitDir: Path, depth: nat, hash: string, blob: GitObject)
    requires ReadGitObject(nodes, hash, gitDir) == Ok(blob)
    requires ["x"] !in nodes
    ensures var r := CheckoutEntry(nodes, TreeEntry(FILE_MODE, "../x", hash), gitDir, ["out"], depth, false);
      && r.err.None?
      && ReadFile(r.nodes, ["x"]) == Ok(blob.content)
      && !Confined(nodes, r.nodes, ["out"])
  {
    PlainX();
    JoinParent(["out"], "x");
    assert Parent(["out"]) + ["x"] == ["x"];
    WriteFileEffect(nodes, ["x"], blob.content);
    assert !(["out"] <= ["x"]);
  }

  lemma PlainX()
    ensures Plain("x") && "../x" == "../" + "x"
  {
  }

  /** The checked walk refuses that entry and changes nothing. */
  lemma ParentRefused(nodes: Tree, gitDir: Path, basePath: Path, depth: nat, hash: string)
    ensures CheckoutEntry(nodes, TreeEntry(FILE_MODE, "../x", hash), gitDir, basePath, depth, true) == Run(nodes, Some(BAD_NAME))
  {
    assert "../x"[2] == '/';
  }

  /** A file entry whose object can be read, with a plain name, in an
      existing directory, leaves a file holding exactly the object's content. */
  lemma FileEntryWritten(nodes: Tree, entry: TreeEntry, gitDir: Path, basePath: Path, depth: nat, blob: GitObject)
    requires entry.mode == FILE_MODE && ReadGitObject(nodes, entry.hash, gitDir) == Ok(blob)
    requires Plain(entry.name) && IsDir(nodes, basePath) && !IsDir(nodes, basePath + [entry.name])
    ensures var r := CheckoutEntry(nodes, entry, gitDir, basePath, depth, false);
      r.err.None? && ReadFile(r.nodes, basePath + [entry.name]) == Ok(blob.content)
  {
    EntryPath(basePath, entry.name);
    WriteFileEffect(nodes, basePath + [entry.name], blob.content);
  }

  /** A sub-tree whose directory already exists stops the walk with EEXIST
      and changes nothing. */
  lemma ExistingFolder(nodes: Tree, entry: TreeEntry, gitDir: Path, basePath: Path, depth: nat)
    requires entry.mode == TREE_MODE && Exists(nodes, PathJoin(basePath, [entry.name]))
    ensures CheckoutEntry(nodes, entry, gitDir, basePath, depth, false) == Run(nodes, Some(EEXIST))
  {
  }

  /** An entry of any other mode changes nothing, in either walk. */
  lemma OtherMode(nodes: Tree, entry: TreeEntry, gitDir: Path, basePath: Path, depth: nat, checked: bool)
    requires entry.mode != FILE_MODE && entry.mode != TREE_MODE
    ensures CheckoutEntry(nodes, entry, gitDir, basePath, depth, checked) == Run(nodes, None)
  {
  }

  /** An object that is not a tree is refused before anything changes. */
  lemma NotATree(nodes: Tree, hash: string, gitDir: Path, basePath: Path, depth: nat, checked: bool)
    requires depth > 0 && ReadGitObject(nodes, hash, gitDir).Ok? && ReadGitObject(nodes, hash, gitDir).value.kind != "tree"
    ensures CheckoutTree(nodes, hash, gitDir, basePath, depth, checked) == Run(nodes, Some(NOT_A_TREE))
  {
  }
}
