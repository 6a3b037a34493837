/**
 * Trusted paths. A file system of inodes that unprivileged users change under the usual permission
 * rules, the component-by-component check of a path while they do so, and what the check guarantees.
 */
module TrustedPath {
  import opened Text

  type Ino = nat

  datatype Kind =
    | Directory(entries: map<string, Ino>)
    | Regular(content: string)
    | Symlink(to: string)
    | Special

  datatype Node = Node(owner: Uid, group: Uid, ownerWrite: bool, groupWrite: bool, otherWrite: bool, kind: Kind)

  type FileSystem = map<Ino, Node>

  /** Who takes a step. */
  datatype Actor = Actor(uid: Uid, groups: set<Uid>)

  /** A rename is an unbinding and a binding; a hard link is a binding. */
  datatype Step =
    | Bind(dir: Ino, name: string, to: Ino)
    | Unbind(dir: Ino, name: string)
    | Create(dir: Ino, name: string, ino: Ino, node: Node)
    | Overwrite(ino: Ino, content: string)
    | ChangeMode(ino: Ino, ownerWrite: bool, groupWrite: bool, otherWrite: bool)
    | ChangeGroup(ino: Ino, group: Uid)

  predicate MayWrite(who: Actor, node: Node) {
    if who.uid == node.owner then node.ownerWrite
    else if node.group in who.groups then node.groupWrite
    else node.otherWrite
  }

  predicate MayChangeDirectory(fs: FileSystem, who: Actor, dir: Ino) {
    dir in fs && fs[dir].kind.Directory? && MayWrite(who, fs[dir])
  }

  predicate Allowed(fs: FileSystem, who: Actor, step: Step) {
    match step
    case Bind(dir, name, to) => MayChangeDirectory(fs, who, dir) && to in fs
    case Unbind(dir, name) => MayChangeDirectory(fs, who, dir)
    case Create(dir, name, ino, node) =>
      && MayChangeDirectory(fs, who, dir) && ino !in fs && node.owner == who.uid
      && (node.kind.Directory? ==> node.kind.entries == map[])
    case Overwrite(ino, content) => ino in fs && fs[ino].kind.Regular? && MayWrite(who, fs[ino])
    case ChangeMode(ino, _, _, _) => ino in fs && fs[ino].owner == who.uid
    case ChangeGroup(ino, group) => ino in fs && fs[ino].owner == who.uid && group in who.groups
  }

  function WithEntries(node: Node, entries: map<string, Ino>): Node
    requires node.kind.Directory?
  {
    node.(kind := Directory(entries))
  }

  /** The file system after a step; a step that is not allowed changes nothing. */
  function Act(fs: FileSystem, who: Actor, step: Step): FileSystem {
    if !Allowed(fs, who, step) then fs
    else
      match step
      case Bind(dir, name, to) => fs[dir := WithEntries(fs[dir], fs[dir].kind.entries[name := to])]
      case Unbind(dir, name) => fs[dir := WithEntries(fs[dir], fs[dir].kind.entries - {name})]
      case Create(dir, name, ino, node) =>
        fs[dir := WithEntries(fs[dir], fs[dir].kind.entries[name := ino])][ino := node]
      case Overwrite(ino, content) => fs[ino := fs[ino].(kind := Regular(content))]
      case ChangeMode(ino, u, g, o) => fs[ino := fs[ino].(ownerWrite := u, groupWrite := g, otherWrite := o)]
      case ChangeGroup(ino, group) => fs[ino := fs[ino].(group := group)]
  }

  type Run = seq<(Actor, Step)>

  predicate Unprivileged(run: Run) {
    forall i | 0 <= i < |run| :: run[i].0.uid != 0
  }

  function AfterRun(fs: FileSystem, run: Run): FileSystem
    decreases |run|
  {
    if run == [] then fs else AfterRun(Act(fs, run[0].0, run[0].1), run[1..])
  }

  /** Owned by root and writable by no one else. */
  predicate Protected(node: Node) {
    node.owner == 0 && !node.groupWrite && !node.otherWrite
  }

  /** Every protected inode is still there, with the same owner, mode, entries and content. */
  predicate Keeps(fs: FileSystem, later: FileSystem) {
    forall ino | ino in fs && Protected(fs[ino]) :: ino in later && later[ino] == fs[ino]
  }

  /** Unprivileged users cannot touch a protected inode, however many steps they take. */
  lemma {:induction false} RunKeepsProtected(fs: FileSystem, run: Run)
    requires Unprivileged(run)
    ensures Keeps(fs, AfterRun(fs, run))
    decreases |run|
  {
    if run != [] {
      var next := Act(fs, run[0].0, run[0].1);
      assert Keeps(fs, next);
      RunKeepsProtected(next, run[1..]);
    }
  }

  // ---- Walking a path ------------------------------------------------------------------------

  /** One component: an empty one, after a repeated or trailing slash, and a dot stay where they are. */
  function Next(fs: FileSystem, dir: Ino, name: string): Option<Ino> {
    if dir !in fs || !fs[dir].kind.Directory? then None
    else if Idle(name) then Some(dir)
    else if name in fs[dir].kind.entries then Some(fs[dir].kind.entries[name])
    else None
  }

  /** The inode a path reaches without following a symbolic link anywhere. */
  function PlainWalk(fs: FileSystem, start: Ino, names: seq<string>): Option<Ino>
    decreases |names|
  {
    if names == [] then Some(start)
    else
      var next := Next(fs, start, names[0]);
      if next.None? then None else PlainWalk(fs, next.value, names[1..])
  }

  /** How the kernel resolves the symbolic link at an inode; nothing is assumed about it. */
  type Follow = (FileSystem, Ino) -> Option<Ino>

  /** What `lstat` resolves to: links before the last component are followed. */
  function Lstat(fs: FileSystem, follow: Follow, start: Ino, names: seq<string>): Option<Ino>
    decreases |names|
  {
    if names == [] then Some(start)
    else
      var dir := if start in fs && fs[start].kind.Symlink? then follow(fs, start) else Some(start);
      if dir.None? then None
      else
        var next := Next(fs, dir.value, names[0]);
        if next.None? then None else Lstat(fs, follow, next.value, names[1..])
  }

  // ---- Path texts ----------------------------------------------------------------------------

  /** A component that leads nowhere else. */
  predicate Idle(name: string) {
    name == "" || name == "."
  }

  predicate Absolute(path: string) {
    path != "" && path[0] == '/'
  }

  /** The pieces between slashes. */
  function Pieces(text: string): (r: seq<string>)
    ensures r != []
    decreases |text|
  {
    match IndexOf(text, '/')
    case None => [text]
    case Some(i) => [text[..i]] + Pieces(text[i + 1..])
  }

  /** The components of an absolute path as the kernel walks them. */
  function Components(path: string): seq<string>
    requires Absolute(path)
  {
    Pieces(path[1..])
  }

  /** Dots and empty names go, a name and the `..` after it cancel, and `..` at the root is dropped. */
  function Reduce(done: seq<string>, names: seq<string>): seq<string>
    decreases |names|
  {
    if names == [] then done
    else if Idle(names[0]) then Reduce(done, names[1..])
    else if names[0] == ".." then Reduce(if done == [] then [] else done[..|done| - 1], names[1..])
    else Reduce(done + [names[0]], names[1..])
  }

  /**
   * `lexically_normal` of an absolute path, as the components after the root. It ends with an empty
   * component, the trailing slash, if the path ended with a slash, a dot or `..` and something is left.
   */
  function LexicallyNormal(path: string): seq<string>
    requires Absolute(path)
  {
    var names := Components(path);
    var last := names[|names| - 1];
    var kept := Reduce([], names);
    kept + if kept != [] && (Idle(last) || last == "..") then [""] else []
  }

  predicate PlainNames(names: seq<string>) {
    forall i | 0 <= i < |names| :: names[i] != "." && names[i] != ".."
  }

  lemma {:induction false} ReduceIsPlain(done: seq<string>, names: seq<string>)
    requires PlainNames(done) && "" !in done
    ensures PlainNames(Reduce(done, names)) && "" !in Reduce(done, names)
    decreases |names|
  {
    if names != [] {
      if Idle(names[0]) {
        ReduceIsPlain(done, names[1..]);
      } else if names[0] == ".." {
        ReduceIsPlain(if done == [] then [] else done[..|done| - 1], names[1..]);
      } else {
        ReduceIsPlain(done + [names[0]], names[1..]);
      }
    }
  }

  /** Normal form has no dots, and an empty component only at the end. */
  lemma NormalIsPlain(path: string)
    requires Absolute(path)
    ensures var names := LexicallyNormal(path);
            PlainNames(names) && forall i | 0 <= i < |names| - 1 :: names[i] != ""
  {
    ReduceIsPlain([], Components(path));
    var kept := Reduce([], Components(path));
    assert forall i | 0 <= i < |kept| :: kept[i] in kept;
  }

  /** Without `..` the reduction only leaves out idle components. */
  function Busy(names: seq<string>): seq<string> {
    if names == [] then [] else (if Idle(names[0]) then [] else [names[0]]) + Busy(names[1..])
  }

  lemma {:induction false} ReduceIsBusy(done: seq<string>, names: seq<string>)
    requires ".." !in names
    ensures Reduce(done, names) == done + Busy(names)
    decreases |names|
  {
    if names != [] {
      assert names[0] in names;
      if Idle(names[0]) {
        ReduceIsBusy(done, names[1..]);
        assert [] + Busy(names[1..]) == Busy(names[1..]);
      } else {
        ReduceIsBusy(done + [names[0]], names[1..]);
        assert (done + [names[0]]) + Busy(names[1..]) == done + ([names[0]] + Busy(names[1..]));
      }
    }
  }

  /**
   * A name and the `..` right after it cancel, wherever they stand; together with `RootHasNoParent` and
   * `ReduceIsBusy` this leaves no other normal form.
   */
  lemma {:induction false} NameAndDotsCancel(done: seq<string>, left: seq<string>, name: string, right: seq<string>)
    requires !Idle(name) && name != ".."
    ensures Reduce(done, left + [name, ".."] + right) == Reduce(done, left + right)
    decreases |left|
  {
    var all := left + [name, ".."] + right;
    if left == [] {
      assert all[1..] == [".."] + right && all[1..][1..] == right;
      assert left + right == right;
      assert (done + [name])[..|done|] == done;
    } else {
      assert all[1..] == left[1..] + [name, ".."] + right;
      assert (left + right)[1..] == left[1..] + right;
      if Idle(left[0]) {
        NameAndDotsCancel(done, left[1..], name, right);
      } else if left[0] == ".." {
        NameAndDotsCancel(if done == [] then [] else done[..|done| - 1], left[1..], name, right);
      } else {
        NameAndDotsCancel(done + [left[0]], left[1..], name, right);
      }
    }
  }

  lemma RootHasNoParent(names: seq<string>)
    ensures Reduce([], [".."] + names) == Reduce([], names)
  {
    assert ([".."] + names)[1..] == names;
  }

  /** The names that lead on, with a trailing slash if the path ended with an idle component. */
  function Trimmed(names: seq<string>): seq<string> {
    Busy(names) + if names != [] && Idle(names[|names| - 1]) then [""] else []
  }

  /** Leaving out idle components changes no walk. */
  lemma {:induction false} TrimmedWalk(fs: FileSystem, start: Ino, names: seq<string>)
    ensures PlainWalk(fs, start, Trimmed(names)) == PlainWalk(fs, start, names)
    decreases |names|
  {
    if names != [] {
      var rest := names[1..];
      var next := Next(fs, start, names[0]);
      if rest != [] {
        assert rest[|rest| - 1] == names[|names| - 1];
      }
      if Idle(names[0]) {
        assert Busy(names) == Busy(rest) by {
          assert [] + Busy(rest) == Busy(rest);
        }
        if rest == [] {
          assert Trimmed(names) == [""] && [""][1..] == [];
        } else {
          assert Trimmed(names) == Trimmed(rest);
          TrimmedWalk(fs, start, rest);
          TrimmedNonEmpty(rest);
        }
      } else {
        assert Trimmed(names) == [names[0]] + Trimmed(rest);
        assert Trimmed(names)[1..] == Trimmed(rest);
        if next.Some? {
          TrimmedWalk(fs, next.value, rest);
        }
      }
    }
  }

  lemma {:induction false} TrimmedNonEmpty(names: seq<string>)
    requires names != []
    ensures Trimmed(names) != []
    decreases |names|
  {
    if Idle(names[0]) && |names| > 1 {
      TrimmedNonEmpty(names[1..]);
      assert names[1..][|names| - 2] == names[|names| - 1];
    }
  }

  lemma {:induction false} WalkConcat(fs: FileSystem, start: Ino, first: seq<string>, rest: seq<string>)
    ensures PlainWalk(fs, start, first + rest) ==
            var middle := PlainWalk(fs, start, first); if middle.None? then None else PlainWalk(fs, middle.value, rest)
    decreases |first|
  {
    if first == [] {
      assert first + rest == rest;
    } else {
      assert (first + rest)[1..] == first[1..] + rest;
      var next := Next(fs, start, first[0]);
      if next.Some? {
        WalkConcat(fs, next.value, first[1..], rest);
      }
    }
  }

  predicate IsDirectory(fs: FileSystem, ino: Ino) {
    ino in fs && fs[ino].kind.Directory?
  }

  /**
   * The directories on the way, from the root to where a walk stands, are `way`. As long as a `..` is still to
   * come, names lead on to directories, and a `..` entry leads back to the directory before, or stays at the
   * root.
   */
  predicate LeadsBack(fs: FileSystem, way: seq<Ino>, names: seq<string>)
    requires way != []
    decreases |names|
  {
    var here := way[|way| - 1];
    ".." in names ==>
      && IsDirectory(fs, here)
      && if Idle(names[0]) then LeadsBack(fs, way, names[1..])
         else if names[0] == ".." then
           var back := if |way| == 1 then way else way[..|way| - 1];
           Next(fs, here, "..") == Some(back[|back| - 1]) && LeadsBack(fs, back, names[1..])
         else
           var next := Next(fs, here, names[0]);
           next.Some? && IsDirectory(fs, next.value) && LeadsBack(fs, way + [next.value], names[1..])
  }

  /** `way` are the directories that the names `done` lead through. */
  predicate Along(fs: FileSystem, way: seq<Ino>, done: seq<string>) {
    && |way| == |done| + 1
    && (forall i | 0 <= i < |way| :: IsDirectory(fs, way[i]))
    && (forall i | 0 <= i < |done| :: Next(fs, way[i], done[i]) == Some(way[i + 1]))
  }

  lemma {:induction false} AlongWalk(fs: FileSystem, way: seq<Ino>, done: seq<string>)
    requires Along(fs, way, done)
    ensures PlainWalk(fs, way[0], done) == Some(way[|way| - 1])
    decreases |done|
  {
    if done != [] {
      assert Along(fs, way[1..], done[1..]) by {
        assert forall i | 0 <= i < |done[1..]| :: done[1..][i] == done[i + 1];
      }
      AlongWalk(fs, way[1..], done[1..]);
    }
  }

  /** `slash` says that the path ended with a slash, a dot or `..`. */
  function Slashed(kept: seq<string>, slash: bool): seq<string> {
    kept + if kept != [] && slash then [""] else []
  }

  /** A trailing slash changes nothing after names that lead to a directory. */
  lemma {:induction false} SlashedWalk(fs: FileSystem, way: seq<Ino>, done: seq<string>, slash: bool)
    requires Along(fs, way, done)
    ensures PlainWalk(fs, way[0], Slashed(done, slash)) == Some(way[|way| - 1])
  {
    AlongWalk(fs, way, done);
    WalkConcat(fs, way[0], done, [""]);
    assert [""][1..] == [];
    assert done + [] == done;
  }

  /** The part of a walk after its last `..`. */
  lemma {:induction false} ReduceWalkPlain(fs: FileSystem, way: seq<Ino>, done: seq<string>, names: seq<string>,
                                           slash: bool)
    requires Along(fs, way, done) && ".." !in names
    requires names != [] ==> slash == Idle(names[|names| - 1])
    ensures PlainWalk(fs, way[0], Slashed(Reduce(done, names), slash)) == PlainWalk(fs, way[|way| - 1], names)
  {
    ReduceIsBusy(done, names);
    var here := way[|way| - 1];
    AlongWalk(fs, way, done);
    if names == [] {
      assert done + Busy(names) == done;
      SlashedWalk(fs, way, done, slash);
    } else if done + Busy(names) == [] {
      TrimmedWalk(fs, here, names);
      TrimmedNonEmpty(names);
      assert Trimmed(names) == [""] && [""][1..] == [];
    } else {
      TrimmedWalk(fs, here, names);
      WalkConcat(fs, way[0], done, Trimmed(names));
      assert Slashed(done + Busy(names), slash) == done + Trimmed(names);
    }
  }

  /** Cancelling names against the `..` after them leads where going there and back leads. */
  lemma {:induction false} ReduceWalk(fs: FileSystem, way: seq<Ino>, done: seq<string>, names: seq<string>, slash: bool)
    requires Along(fs, way, done) && LeadsBack(fs, way, names)
    requires names != [] ==> var last := names[|names| - 1]; slash == (Idle(last) || last == "..")
    ensures PlainWalk(fs, way[0], Slashed(Reduce(done, names), slash)) == PlainWalk(fs, way[|way| - 1], names)
    decreases |names|
  {
    if ".." !in names {
      assert names != [] ==> names[|names| - 1] in names;
      ReduceWalkPlain(fs, way, done, names, slash);
    } else {
      var rest := names[1..];
      assert rest != [] ==> rest[|rest| - 1] == names[|names| - 1];
      if Idle(names[0]) {
        ReduceWalk(fs, way, done, rest, slash);
      } else if names[0] == ".." {
        if done == [] {
          ReduceWalk(fs, way, done, rest, slash);
        } else {
          ReduceWalk(fs, way[..|way| - 1], done[..|done| - 1], rest, slash);
        }
      } else {
        ReduceWalk(fs, way + [Next(fs, way[|way| - 1], names[0]).value], done + [names[0]], rest, slash);
      }
    }
  }

  /**
   * The kernel's walk and the walk of the normal form are the same where every `..` leads back to the
   * directory before it; for a path without `..` that is everywhere.
   */
  lemma NormalWalk(fs: FileSystem, root: Ino, path: string)
    requires Absolute(path) && IsDirectory(fs, root) && LeadsBack(fs, [root], Components(path))
    ensures PlainWalk(fs, root, LexicallyNormal(path)) == PlainWalk(fs, root, Components(path))
  {
    var names := Components(path);
    var last := names[|names| - 1];
    ReduceWalk(fs, [root], [], names, Idle(last) || last == "..");
  }

  // ---- The check -----------------------------------------------------------------------------

  /** What the check asks about component `i`, in the file system of that moment. */
  predicate Acceptable(fs: FileSystem, follow: Follow, root: Ino, names: seq<string>, i: nat)
    requires i < |names|
  {
    var ino := Lstat(fs, follow, root, names[..i + 1]);
    && names[i] != ".."
    && ino.Some? && ino.value in fs
    && !fs[ino.value].kind.Symlink? && Protected(fs[ino.value])
    && (i + 1 < |names| ==> fs[ino.value].kind.Directory?)
  }

  /**
   * `is_trusted_path`. `views` are the states of the file system at the successive `lstat` calls, and the
   * last one the state when the method returns.
   */
  method IsTrustedPath(views: seq<FileSystem>, follow: Follow, root: Ino, path: string) returns (trusted: bool)
    requires Absolute(path) ==> |views| == |LexicallyNormal(path)| + 1
    ensures trusted <==> Absolute(path) && AllAcceptable(views, follow, root, LexicallyNormal(path))
  {
    if path == "" || path[0] != '/' {
      return false;
    }
    var normalized := LexicallyNormal(path);
    var current: seq<string> := [];
    for i := 0 to |normalized|
      invariant current == normalized[..i]
      invariant forall j | 0 <= j < i :: Acceptable(views[j], follow, root, normalized, j)
    {
      var name := normalized[i];
      if name == ".." {
        assert !Acceptable(views[i], follow, root, normalized, i);
        return false;
      }
      current := current + [name];
      assert current == normalized[..i + 1];
      var found := Lstat(views[i], follow, root, current);
      if found.None? || found.value !in views[i] {
        assert !Acceptable(views[i], follow, root, normalized, i);
        return false;
      }
      var st := views[i][found.value];
      if st.kind.Symlink? || st.owner != 0 || st.groupWrite || st.otherWrite {
        assert !Acceptable(views[i], follow, root, normalized, i);
        return false;
      }
      if |current| != |normalized| && !st.kind.Directory? {
        assert !Acceptable(views[i], follow, root, normalized, i);
        return false;
      }
    }
    return true;
  }

  predicate AllAcceptable(views: seq<FileSystem>, follow: Follow, root: Ino, names: seq<string>)
    requires |views| == |names| + 1
  {
    forall i | 0 <= i < |names| :: Acceptable(views[i], follow, root, names, i)
  }

  /** The path exists, and every inode on the way is protected and no symbolic link. */
  predicate Guarded(fs: FileSystem, start: Ino, names: seq<string>)
    decreases |names|
  {
    && start in fs && Protected(fs[start]) && !fs[start].kind.Symlink?
    && (names == []
        || (var next := Next(fs, start, names[0]); next.Some? && Guarded(fs, next.value, names[1..])))
  }

  /** A guarded path is a plain one for the kernel too. */
  lemma {:induction false} GuardedWalk(fs: FileSystem, follow: Follow, start: Ino, names: seq<string>)
    requires Guarded(fs, start, names)
    ensures var ino := PlainWalk(fs, start, names);
            && ino.Some? && ino.value in fs && Protected(fs[ino.value]) && !fs[ino.value].kind.Symlink?
            && Lstat(fs, follow, start, names) == ino
    decreases |names|
  {
    if names != [] {
      GuardedWalk(fs, follow, Next(fs, start, names[0]).value, names[1..]);
    }
  }

  /** A guarded path stays guarded and goes to the same inode as long as protected inodes are kept. */
  lemma {:induction false} GuardedStays(fs: FileSystem, later: FileSystem, start: Ino, names: seq<string>)
    requires Guarded(fs, start, names) && Keeps(fs, later)
    ensures Guarded(later, start, names) && PlainWalk(later, start, names) == PlainWalk(fs, start, names)
    decreases |names|
  {
    assert later[start] == fs[start];
    if names != [] {
      GuardedStays(fs, later, Next(fs, start, names[0]).value, names[1..]);
    }
  }

  /** Accepting one more component of a guarded path guards it too. */
  lemma {:induction false} GuardedExtend(fs: FileSystem, follow: Follow, start: Ino, names: seq<string>, name: string)
    requires Guarded(fs, start, names)
    requires var ino := Lstat(fs, follow, start, names + [name]);
             ino.Some? && ino.value in fs && Protected(fs[ino.value]) && !fs[ino.value].kind.Symlink?
    ensures Guarded(fs, start, names + [name])
    decreases |names|
  {
    var all := names + [name];
    if names == [] {
      assert all[0] == name && all[1..] == [];
    } else {
      assert all[0] == names[0] && all[1..] == names[1..] + [name];
      GuardedExtend(fs, follow, Next(fs, start, names[0]).value, names[1..], name);
    }
  }

  /** The states between which only unprivileged users act. */
  predicate Interleaved(views: seq<FileSystem>, runs: seq<Run>) {
    && |views| == |runs| + 1
    && (forall i | 0 <= i < |runs| :: Unprivileged(runs[i]))
    && (forall i | 0 <= i < |runs| :: views[i + 1] == AfterRun(views[i], runs[i]))
  }

  lemma {:induction false} AcceptedIsGuarded(views: seq<FileSystem>, runs: seq<Run>, follow: Follow, root: Ino,
                                             names: seq<string>, n: nat)
    requires n <= |names| == |runs| && Interleaved(views, runs)
    requires Guarded(views[0], root, [])
    requires forall i | 0 <= i < n :: Acceptable(views[i], follow, root, names, i)
    ensures Guarded(views[n], root, names[..n])
  {
    if n == 0 {
      assert names[..0] == [];
    } else {
      AcceptedIsGuarded(views, runs, follow, root, names, n - 1);
      assert names[..n] == names[..n - 1] + [names[n - 1]];
      GuardedExtend(views[n - 1], follow, root, names[..n - 1], names[n - 1]);
      RunKeepsProtected(views[n - 1], runs[n - 1]);
      GuardedStays(views[n - 1], views[n], root, names[..n]);
    }
  }

  /** An inode that a path keeps reaching, unchanged, whatever unprivileged users do from now on. */
  ghost predicate Settled(fs: FileSystem, root: Ino, names: seq<string>, ino: Ino) {
    && ino in fs && Protected(fs[ino]) && !fs[ino].kind.Symlink?
    && forall run | Unprivileged(run) ::
         var later := AfterRun(fs, run);
         PlainWalk(later, root, names) == Some(ino) && ino in later && later[ino] == fs[ino]
  }

  /**
   * A trusted path stays put. Users may act between any two looks of the check and as long as they like
   * afterwards: once every component was accepted, the normal form of the path reaches one and the same inode
   * without following a symbolic link, and that inode keeps its owner, mode and content. So does the path as
   * it was given, dots and repeated slashes included, if it has no `..`.
   */
  lemma {:induction false} TrustedPathStays(views: seq<FileSystem>, runs: seq<Run>, follow: Follow, root: Ino,
                                            path: string)
    returns (ino: Ino)
    requires Absolute(path)
    requires |runs| == |LexicallyNormal(path)| && Interleaved(views, runs)
    requires Guarded(views[0], root, []) && views[0][root].kind.Directory?
    requires AllAcceptable(views, follow, root, LexicallyNormal(path))
    ensures Settled(views[|views| - 1], root, LexicallyNormal(path), ino)
    ensures ".." !in Components(path) ==> Settled(views[|views| - 1], root, Components(path), ino)
  {
    var names := LexicallyNormal(path);
    var fs := views[|names|];
    AcceptedIsGuarded(views, runs, follow, root, names, |names|);
    assert names[..|names|] == names;
    GuardedWalk(fs, follow, root, names);
    ino := PlainWalk(fs, root, names).value;
    ViewsKeep(views, runs, |runs|);
    forall run | Unprivileged(run)
      ensures var later := AfterRun(fs, run);
              && PlainWalk(later, root, names) == Some(ino) && ino in later && later[ino] == fs[ino]
              && (".." !in Components(path) ==> PlainWalk(later, root, Components(path)) == Some(ino))
    {
      RunKeepsProtected(fs, run);
      GuardedStays(fs, AfterRun(fs, run), root, names);
      if ".." !in Components(path) {
        NormalWalk(AfterRun(fs, run), root, path);
      }
    }
  }

  /** A component that names an entry. */
  predicate Proper(name: string) {
    !Idle(name) && name != ".." && '/' !in name
  }

  /** Root's `/x` is a symbolic link into a directory of user 7, next to which the user keeps a file `b`. */
  function LinkedAway(x: string, b: string): FileSystem {
    map[0 := Node(0, 0, true, false, false, Directory(map[".." := 0, x := 1, b := 2])),
        1 := Node(0, 0, true, false, false, Symlink("/home/user/d")),
        2 := Node(0, 0, true, false, false, Regular("root's")),
        3 := Node(7, 7, true, false, false, Directory(map[".." := 4])),
        4 := Node(7, 7, true, false, false, Directory(map[b := 5])),
        5 := Node(7, 7, true, false, false, Regular("the user's"))]
  }

  /**
   * With `..` the path as it was given may lead elsewhere: the check cancels the name before `..`, while the
   * kernel goes through it, here over a link into a directory of a user. The path `/x/../b` is accepted, and
   * what it reaches is the user's.
   */
  lemma {:induction false} DotDotLeadsAway(x: string, b: string, path: string, follow: Follow)
    requires Proper(x) && Proper(b) && x != b && path == ['/'] + (x + "/" + (".." + "/" + b))
    requires follow(LinkedAway(x, b), 1) == Some(3)
    ensures var fs, names := LinkedAway(x, b), LexicallyNormal(path);
            && AllAcceptable(seq(|names| + 1, i => fs), follow, 0, names)
            && Lstat(fs, follow, 0, Components(path)) == Some(5) && !Protected(fs[5])
  {
    NormalAway(x, b, path);
    PlainAccepted(x, b, follow);
    KernelAway(x, b, follow);
  }

  lemma {:induction false} PlainAccepted(x: string, b: string, follow: Follow)
    requires Proper(x) && Proper(b) && x != b
    ensures AllAcceptable([LinkedAway(x, b), LinkedAway(x, b)], follow, 0, [b])
    ensures seq(2, i => LinkedAway(x, b)) == [LinkedAway(x, b), LinkedAway(x, b)]
  {
    var fs := LinkedAway(x, b);
    assert [b][..1] == [b];
    LstatOne(fs, follow, 0, b);
  }

  lemma {:induction false} KernelAway(x: string, b: string, follow: Follow)
    requires Proper(x) && Proper(b) && x != b && follow(LinkedAway(x, b), 1) == Some(3)
    ensures Lstat(LinkedAway(x, b), follow, 0, [x, "..", b]) == Some(5)
  {
    var fs := LinkedAway(x, b);
    assert [x, "..", b][1..] == ["..", b] && ["..", b][1..] == [b];
    assert Lstat(fs, follow, 1, ["..", b]) == Lstat(fs, follow, 4, [b]);
    LstatOne(fs, follow, 4, b);
  }

  lemma LstatOne(fs: FileSystem, follow: Follow, dir: Ino, name: string)
    requires dir in fs && fs[dir].kind.Directory?
    ensures Lstat(fs, follow, dir, [name]) == Next(fs, dir, name)
  {
    assert [name][1..] == [];
  }

  lemma {:induction false} NormalAway(x: string, b: string, path: string)
    requires Proper(x) && Proper(b) && path == ['/'] + (x + "/" + (".." + "/" + b))
    ensures Components(path) == [x, "..", b] && LexicallyNormal(path) == [b]
  {
    ComponentsAway(x, b, path);
    ReduceAway(x, b);
    assert [b] + [] == [b];
  }

  lemma {:induction false} ComponentsAway(x: string, b: string, path: string)
    requires Proper(x) && Proper(b) && path == ['/'] + (x + "/" + (".." + "/" + b))
    ensures Components(path) == [x, "..", b]
  {
    assert path[1..] == x + "/" + (".." + "/" + b);
    PiecesHead(x, ".." + "/" + b);
    PiecesHead("..", b);
    assert Pieces(b) == [b];
    assert [x] + ([".."] + [b]) == [x, "..", b];
  }

  lemma {:induction false} ReduceAway(x: string, b: string)
    requires Proper(x) && Proper(b)
    ensures Reduce([], [x, "..", b]) == [b]
  {
    var names := [x, "..", b];
    assert names[1..] == ["..", b] && names[1..][1..] == [b] && [b][1..] == [];
    assert [] + [x] == [x] && [x][..0] == [] && [] + [b] == [b];
    assert Reduce([], names) == Reduce([x], ["..", b]) == Reduce([], [b]) == Reduce([b], []);
  }

  lemma PiecesHead(first: string, rest: string)
    requires '/' !in first
    ensures Pieces(first + "/" + rest) == [first] + Pieces(rest)
  {
    var text := first + "/" + rest;
    IndexOfUnique(first, '/', rest);
    assert text == first + ['/'] + rest;
    assert text[..|first|] == first && text[|first| + 1..] == rest;
  }

  /** Protected inodes of the first state are the same in all. */
  lemma {:induction false} ViewsKeep(views: seq<FileSystem>, runs: seq<Run>, n: nat)
    requires Interleaved(views, runs) && n <= |runs|
    ensures Keeps(views[0], views[n])
  {
    if n > 0 {
      ViewsKeep(views, runs, n - 1);
      RunKeepsProtected(views[n - 1], runs[n - 1]);
    }
  }

  /** The prefixes of a guarded path are guarded, and those before the last end in directories. */
  lemma {:induction false} GuardedPrefix(fs: FileSystem, start: Ino, names: seq<string>, n: nat)
    requires n <= |names| && Guarded(fs, start, names)
    ensures Guarded(fs, start, names[..n])
    ensures n < |names| ==>
              var ino := PlainWalk(fs, start, names[..n]);
              ino.Some? && ino.value in fs && fs[ino.value].kind.Directory?
    decreases |names|
  {
    if n > 0 {
      GuardedPrefix(fs, Next(fs, start, names[0]).value, names[1..], n - 1);
      assert names[..n][0] == names[0] && names[..n][1..] == names[1..][..n - 1];
    }
  }

  /** In a file system at rest the check accepts exactly the paths whose normal form is guarded. */
  lemma {:induction false} TrustedExactly(fs: FileSystem, follow: Follow, root: Ino, path: string)
    requires Absolute(path) && Guarded(fs, root, [])
    ensures var names := LexicallyNormal(path);
            AllAcceptable(seq(|names| + 1, i => fs), follow, root, names) <==> Guarded(fs, root, names)
  {
    var names := LexicallyNormal(path);
    var views := seq(|names| + 1, i => fs);
    if AllAcceptable(views, follow, root, names) {
      var runs: seq<Run> := seq(|names|, i => []);
      AcceptedIsGuarded(views, runs, follow, root, names, |names|);
      assert names[..|names|] == names;
    }
    if Guarded(fs, root, names) {
      NormalIsPlain(path);
      forall i | 0 <= i < |names|
        ensures Acceptable(fs, follow, root, names, i)
      {
        GuardedPrefix(fs, root, names, i + 1);
        GuardedWalk(fs, follow, root, names[..i + 1]);
      }
    }
  }
}
