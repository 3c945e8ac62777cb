/** The tree of task commands (crates/aspect-cli/src/cmd.rs): groups nested inside groups,
    tasks at the leaves, one name never both. */
module TaskTree {
  import opened Prelude

  const MAX_TASK_GROUPS: nat := 5

  const RESERVED_TOP_LEVEL_COMMANDS: set<string> := {"feature", "describe", "get"}

  datatype Tree<T> = Tree(subgroups: map<string, Tree<T>>, tasks: map<string, T>)

  datatype TaskSpec<T> = TaskSpec(group: seq<string>, kind: string, command: T)

  datatype Error =
    | TooManyGroups(kind: string)
    | NameConflict(name: string, group: seq<string>)
    | ReservedName(kind: string)

  datatype Result<T> = Ok(tree: Tree<T>) | Err(error: Error)

  function Empty<T>(): Tree<T> {
    Tree(map[], map[])
  }

  function Subgroup<T>(t: Tree<T>, name: string): Tree<T> {
    if name in t.subgroups then t.subgroups[name] else Empty()
  }

  function InsertAt<T>(t: Tree<T>, name: string, fullGroup: seq<string>, remaining: seq<string>, command: T): Result<T>
    decreases |remaining|
  {
    if remaining == [] then
      if name in t.subgroups || name in t.tasks then Err(NameConflict(name, fullGroup))
      else Ok(t.(tasks := t.tasks[name := command]))
    else if remaining[0] in t.tasks then Err(NameConflict(remaining[0], fullGroup))
    else
      var sub := InsertAt(Subgroup(t, remaining[0]), name, fullGroup, remaining[1..], command);
      if sub.Ok? then Ok(t.(subgroups := t.subgroups[remaining[0] := sub.tree])) else sub
  }

  function Insert<T>(t: Tree<T>, task: TaskSpec<T>): Result<T> {
    if |task.group| > MAX_TASK_GROUPS then Err(TooManyGroups(task.kind))
    else if task.group == [] && task.kind in RESERVED_TOP_LEVEL_COMMANDS then Err(ReservedName(task.kind))
    else InsertAt(t, task.kind, task.group, task.group, task.command)
  }

  /** The tree after inserting tasks in order, up to the first that is refused. */
  function Build<T>(tasks: seq<TaskSpec<T>>): Result<T> {
    if tasks == [] then Ok(Empty())
    else
      var before := Build(tasks[..|tasks| - 1]);
      if before.Ok? then Insert(before.tree, tasks[|tasks| - 1]) else before
  }

  // ---- Lookup ---------------------------------------------------------------------------------

  /** The task at a path, as a command line would reach it. */
  function Lookup<T>(t: Tree<T>, path: seq<string>): Option<T>
    decreases |path|
  {
    if path == [] then None
    else if |path| == 1 then if path[0] in t.tasks then Some(t.tasks[path[0]]) else None
    else if path[0] in t.subgroups then Lookup(t.subgroups[path[0]], path[1..])
    else None
  }

  predicate HasGroup<T>(t: Tree<T>, path: seq<string>)
    decreases |path|
  {
    path == [] || (path[0] in t.subgroups && HasGroup(t.subgroups[path[0]], path[1..]))
  }

  /** Some task stands at a prefix of the path, or below the path. */
  ghost predicate Blocked<T>(t: Tree<T>, path: seq<string>) {
    HasGroup(t, path) || exists n :: 0 < n <= |path| && Lookup(t, path[..n]).Some?
  }

  lemma InEmpty<T>(path: seq<string>)
    requires path != []
    ensures Lookup<T>(Empty(), path) == None && !HasGroup<T>(Empty(), path)
  {
  }

  lemma SubgroupLookup<T>(t: Tree<T>, path: seq<string>)
    requires |path| > 1
    ensures Lookup(t, path) == Lookup(Subgroup(t, path[0]), path[1..])
    ensures HasGroup(t, path) == HasGroup(Subgroup(t, path[0]), path[1..])
  {
    InEmpty<T>(path[1..]);
  }

  lemma BlockedBelow<T>(t: Tree<T>, path: seq<string>)
    requires |path| > 1
    ensures Blocked(t, path) <==> path[0] in t.tasks || Blocked(Subgroup(t, path[0]), path[1..])
  {
    hide Lookup, HasGroup;
    var sub, rest := Subgroup(t, path[0]), path[1..];
    SubgroupLookup(t, path);
    FirstLookup(t, path);
    if n :| 0 < n <= |path| && Lookup(t, path[..n]).Some? && n > 1 {
      SubgroupLookup(t, path[..n]);
      assert path[..n][1..] == rest[..n - 1];
      assert Lookup(sub, rest[..n - 1]).Some?;
    }
    if n :| 0 < n <= |rest| && Lookup(sub, rest[..n]).Some? {
      SubgroupLookup(t, path[..n + 1]);
      assert path[..n + 1][1..] == rest[..n];
      assert Lookup(t, path[..n + 1]).Some?;
    }
    if path[0] in t.tasks {
      assert Lookup(t, path[..1]).Some?;
    }
  }

  lemma FirstLookup<T>(t: Tree<T>, path: seq<string>)
    requires path != []
    ensures Lookup(t, path[..1]).Some? <==> path[0] in t.tasks
  {
  }

  /** An insertion is refused exactly when the path is blocked. */
  lemma {:induction false} InsertFailsIffBlocked<T>(t: Tree<T>, name: string, fullGroup: seq<string>,
                                                    remaining: seq<string>, command: T)
    ensures InsertAt(t, name, fullGroup, remaining, command).Ok? <==> !Blocked(t, remaining + [name])
    decreases |remaining|
  {
    hide Blocked;
    var path := remaining + [name];
    if remaining == [] {
      BlockedHere(t, name);
      assert path == [name];
    } else {
      assert path[1..] == remaining[1..] + [name];
      InsertFailsIffBlocked(Subgroup(t, path[0]), name, fullGroup, remaining[1..], command);
      BlockedBelow(t, path);
    }
  }

  /** The error names the first task that stands on the way, or else the task's own name. */
  lemma {:induction false} RefusalNamesTheFirst<T>(t: Tree<T>, name: string, fullGroup: seq<string>,
                                                   remaining: seq<string>, command: T, n: nat)
    requires var path := remaining + [name];
      && 0 < n <= |path| + 1 && (n <= |path| ==> Lookup(t, path[..n]).Some?)
      && forall m :: 0 < m < n && m <= |path| ==> Lookup(t, path[..m]).None?
    ensures var path, result := remaining + [name], InsertAt(t, name, fullGroup, remaining, command);
      && (n <= |path| ==> result == Err(NameConflict(path[n - 1], fullGroup)))
      && (result.Err? && n > |path| ==> result.error == NameConflict(name, fullGroup))
    decreases |remaining|
  {
    hide Lookup;
    var path := remaining + [name];
    FirstLookup(t, path);
    if remaining == [] {
      assert path == [name];
    } else if n == 1 {
    } else {
      var sub, rest := Subgroup(t, path[0]), remaining[1..] + [name];
      assert path[1..] == rest;
      assert Lookup(t, path[..1]).None?;
      forall m | 0 < m <= |rest| ensures Lookup(sub, rest[..m]) == Lookup(t, path[..m + 1]) {
        SubgroupLookup(t, path[..m + 1]);
        assert path[..m + 1][1..] == rest[..m];
      }
      RefusalNamesTheFirst(sub, name, fullGroup, remaining[1..], command, n - 1);
    }
  }

  /** What is refused before the tree is looked at. */
  lemma LimitsComeFirst<T>(t: Tree<T>, task: TaskSpec<T>)
    ensures |task.group| > 5 ==> Insert(t, task) == Err(TooManyGroups(task.kind))
    ensures task.group == [] && task.kind in {"feature", "describe", "get"} ==>
      Insert(t, task) == Err(ReservedName(task.kind))
    ensures |task.group| <= 5 && (task.group == [] ==> task.kind !in {"feature", "describe", "get"}) ==>
      Insert(t, task) == InsertAt(t, task.kind, task.group, task.group, task.command)
  {
  }

  lemma BlockedHere<T>(t: Tree<T>, name: string)
    ensures Blocked(t, [name]) <==> name in t.subgroups || name in t.tasks
  {
    assert [name][..1] == [name];
    assert HasGroup(t, [name]) <==> name in t.subgroups;
    if name in t.tasks {
      assert Lookup(t, [name][..1]).Some?;
    }
  }

  /** A successful insertion adds the task and the groups above it, and nothing else. */
  lemma {:induction false} InsertChangesOnePath<T>(t: Tree<T>, name: string, fullGroup: seq<string>,
                                                   remaining: seq<string>, command: T, path: seq<string>)
    requires InsertAt(t, name, fullGroup, remaining, command).Ok?
    ensures var t' := InsertAt(t, name, fullGroup, remaining, command).tree;
      Lookup(t', path) == (if path == remaining + [name] then Some(command) else Lookup(t, path))
      && (HasGroup(t', path) <==> HasGroup(t, path) || path < remaining + [name])
    decreases |remaining|
  {
    if remaining == [] {
      assert remaining + [name] == [name];
    } else if path != [] {
      var head := remaining[0];
      var sub := Subgroup(t, head);
      var sub' := InsertAt(sub, name, fullGroup, remaining[1..], command).tree;
      InsertChangesOnePath(sub, name, fullGroup, remaining[1..], command, path[1..]);
      assert remaining + [name] == [head] + (remaining[1..] + [name]);
      assert path == [path[0]] + path[1..];
      if path[0] == head {
        BelowHead(head, path[1..], remaining[1..] + [name]);
        if |path| > 1 {
          SubgroupLookup(t, path);
        }
      }
    }
  }

  lemma BelowHead(head: string, a: seq<string>, b: seq<string>)
    ensures [head] + a == [head] + b <==> a == b
    ensures [head] + a < [head] + b <==> a < b
  {
    assert ([head] + a)[1..] == a && ([head] + b)[1..] == b;
    assert [head] + a <= [head] + b ==> a <= b by {
      if [head] + a <= [head] + b {
        assert forall i :: 0 <= i < |a| ==> a[i] == ([head] + a)[i + 1] == ([head] + b)[i + 1] == b[i];
      }
    }
  }

  lemma {:induction false} InsertIntoEmpty<T>(name: string, fullGroup: seq<string>, remaining: seq<string>, command: T)
    ensures InsertAt(Empty(), name, fullGroup, remaining, command).Ok?
    decreases |remaining|
  {
    if remaining != [] {
      InsertIntoEmpty(name, fullGroup, remaining[1..], command);
    }
  }
}
