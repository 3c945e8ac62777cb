/** Which sets of tasks make a command tree, that every accepted task is reached by its own
    path, and what attaching the tree to the root command can still refuse. */
module TaskTreeTheory {
  import opened Prelude
  import opened TaskTree

  function Path<T>(task: TaskSpec<T>): seq<string> {
    task.group + [task.kind]
  }

  predicate Comparable(a: seq<string>, b: seq<string>) {
    a <= b || b <= a
  }

  predicate Admissible<T>(task: TaskSpec<T>) {
    |task.group| <= MAX_TASK_GROUPS && (task.group == [] ==> task.kind !in RESERVED_TOP_LEVEL_COMMANDS)
  }

  /** Every task is admissible, and no path is a prefix of another task's path. */
  ghost predicate Compatible<T>(tasks: seq<TaskSpec<T>>) {
    && (forall i :: 0 <= i < |tasks| ==> Admissible(tasks[i]))
    && forall i, j :: 0 <= i < j < |tasks| ==> !Comparable(Path(tasks[i]), Path(tasks[j]))
  }

  function Found<T>(tasks: seq<TaskSpec<T>>, path: seq<string>): Option<T> {
    if tasks == [] then None
    else
      var last := tasks[|tasks| - 1];
      if Path(last) == path then Some(last.command) else Found(tasks[..|tasks| - 1], path)
  }

  lemma {:induction false} FoundIff<T>(tasks: seq<TaskSpec<T>>, path: seq<string>)
    ensures Found(tasks, path).Some? <==> exists i :: 0 <= i < |tasks| && Path(tasks[i]) == path
  {
    if tasks != [] {
      var n := |tasks| - 1;
      FoundIff(tasks[..n], path);
      if i :| 0 <= i < |tasks[..n]| && Path(tasks[..n][i]) == path {
        assert Path(tasks[i]) == path;
      }
      if i :| 0 <= i < |tasks| && Path(tasks[i]) == path && i < n {
        assert Path(tasks[..n][i]) == path;
      }
    }
  }

  ghost predicate AnyBelow<T>(tasks: seq<TaskSpec<T>>, path: seq<string>) {
    exists i :: 0 <= i < |tasks| && path < Path(tasks[i])
  }

  lemma AnyBelowGrows<T>(tasks: seq<TaskSpec<T>>, task: TaskSpec<T>, path: seq<string>)
    ensures AnyBelow(tasks + [task], path) <==> AnyBelow(tasks, path) || path < Path(task)
  {
    var all := tasks + [task];
    if i :| 0 <= i < |tasks| && path < Path(tasks[i]) {
      assert path < Path(all[i]);
    }
    if path < Path(task) {
      assert path < Path(all[|tasks|]);
    }
  }

  /** A built tree finds at each path the task given for it, and has exactly the groups
      that tasks stand below. */
  lemma {:induction false} BuiltTree<T>(tasks: seq<TaskSpec<T>>, path: seq<string>)
    requires Build(tasks).Ok?
    ensures Lookup(Build(tasks).tree, path) == Found(tasks, path)
    ensures HasGroup(Build(tasks).tree, path) <==> path == [] || AnyBelow(tasks, path)
  {
    hide Lookup, HasGroup, InsertAt, AnyBelow;
    if tasks == [] {
      InEmptyTree<T>(path);
    } else {
      var front, last := tasks[..|tasks| - 1], tasks[|tasks| - 1];
      assert tasks == front + [last];
      BuiltTree(front, path);
      AnyBelowGrows(front, last, path);
      InsertChangesOnePath(Build(front).tree, last.kind, last.group, last.group, last.command, path);
    }
  }

  lemma InEmptyTree<T>(path: seq<string>)
    ensures Lookup<T>(Empty(), path) == None
    ensures HasGroup<T>(Empty(), path) <==> path == []
    ensures !AnyBelow<T>([], path)
  {
  }

  lemma BlockedIffComparable<T>(tasks: seq<TaskSpec<T>>, path: seq<string>)
    requires Build(tasks).Ok? && path != []
    ensures Blocked(Build(tasks).tree, path) <==> exists i :: 0 <= i < |tasks| && Comparable(Path(tasks[i]), path)
  {
    hide Build, Lookup, HasGroup, Path, Found;
    var t := Build(tasks).tree;
    BuiltTree(tasks, path);
    if HasGroup(t, path) {
      var i :| 0 <= i < |tasks| && path < Path(tasks[i]);
      assert Comparable(Path(tasks[i]), path);
    }
    if n :| 0 < n <= |path| && Lookup(t, path[..n]).Some? {
      BuiltTree(tasks, path[..n]);
      FoundIff(tasks, path[..n]);
      var i :| 0 <= i < |tasks| && Path(tasks[i]) == path[..n];
      assert Comparable(Path(tasks[i]), path);
    }
    if i :| 0 <= i < |tasks| && Comparable(Path(tasks[i]), path) {
      ComparableBlocks(tasks, path, i);
    }
  }

  lemma ComparableBlocks<T>(tasks: seq<TaskSpec<T>>, path: seq<string>, i: nat)
    requires Build(tasks).Ok? && path != [] && i < |tasks| && Comparable(Path(tasks[i]), path)
    ensures Blocked(Build(tasks).tree, path)
  {
    hide Build, Lookup, HasGroup, Found;
    var other := Path(tasks[i]);
    if path < other {
      BuiltTree(tasks, path);
    } else {
      BuiltTree(tasks, other);
      FoundIff(tasks, other);
      assert path[..|other|] == other;
    }
  }

  /** A set of tasks is accepted exactly when depths are within the limit, no top-level kind
      is reserved, and no two paths are equal or one a prefix of the other. */
  lemma {:induction false} AcceptedIffCompatible<T>(tasks: seq<TaskSpec<T>>)
    ensures Build(tasks).Ok? <==> Compatible(tasks)
    ensures Build(tasks).Ok? ==> forall task :: task in tasks ==>
      |task.group| <= 5 && (task.group == [] ==> task.kind !in {"feature", "describe", "get"})
  {
    hide InsertAt, Blocked, Path, Comparable;
    if tasks != [] {
      var front, last := tasks[..|tasks| - 1], tasks[|tasks| - 1];
      assert tasks == front + [last];
      AcceptedIffCompatible(front);
      if Build(front).Ok? && Admissible(last) {
        PathIs(last);
        InsertFailsIffBlocked(Build(front).tree, last.kind, last.group, last.group, last.command);
        BlockedIffComparable(front, Path(last));
      }
    }
  }

  lemma PathIs<T>(task: TaskSpec<T>)
    ensures Path(task) == task.group + [task.kind] && Path(task) != []
  {
  }

  /** Each accepted task is found at its own path, and nothing else is found anywhere. */
  lemma EveryTaskIsReached<T>(tasks: seq<TaskSpec<T>>, i: nat, path: seq<string>)
    requires Build(tasks).Ok? && i < |tasks|
    ensures Lookup(Build(tasks).tree, Path(tasks[i])) == Some(tasks[i].command)
    ensures Lookup(Build(tasks).tree, path).Some? ==> exists j :: 0 <= j < |tasks| && Path(tasks[j]) == path
  {
    hide Build, Lookup;
    AcceptedIffCompatible(tasks);
    BuiltTree(tasks, Path(tasks[i]));
    BuiltTree(tasks, path);
    FoundIff(tasks, path);
    FoundOwn(tasks, i);
  }

  lemma {:induction false} FoundOwn<T>(tasks: seq<TaskSpec<T>>, i: nat)
    requires Compatible(tasks) && i < |tasks|
    ensures Found(tasks, Path(tasks[i])) == Some(tasks[i].command)
  {
    var n := |tasks| - 1;
    if i < n {
      assert tasks[..n][i] == tasks[i];
      FoundOwn(tasks[..n], i);
      assert !Comparable(Path(tasks[i]), Path(tasks[n]));
    }
  }

  /** Neither acceptance nor lookup depends on the order the tasks come in. */
  lemma OrderDoesNotMatter<T>(tasks: seq<TaskSpec<T>>, others: seq<TaskSpec<T>>, path: seq<string>)
    requires multiset(tasks) == multiset(others)
    ensures Build(tasks).Ok? <==> Build(others).Ok?
    ensures Build(tasks).Ok? ==> Lookup(Build(tasks).tree, path) == Lookup(Build(others).tree, path)
  {
    hide Build, Lookup, Compatible;
    AcceptedIffCompatible(tasks);
    AcceptedIffCompatible(others);
    if Compatible(tasks) {
      CompatibleAnyOrder(tasks, others);
    }
    if Compatible(others) {
      CompatibleAnyOrder(others, tasks);
    }
    if Compatible(tasks) {
      SameFound(tasks, others, path);
      BuiltTree(tasks, path);
      BuiltTree(others, path);
    }
  }

  lemma {:induction false} OnceIn<T>(s: seq<T>, x: T)
    requires forall i, j :: 0 <= i < j < |s| ==> s[i] != s[j]
    ensures multiset(s)[x] <= 1
  {
    if s != [] {
      var front := s[..|s| - 1];
      OnceIn(front, x);
      assert s == front + [s[|s| - 1]];
      assert forall i :: 0 <= i < |front| ==> front[i] == s[i] && s[i] != s[|s| - 1];
    }
  }

  lemma CompatibleAnyOrder<T>(tasks: seq<TaskSpec<T>>, others: seq<TaskSpec<T>>)
    requires multiset(tasks) == multiset(others) && Compatible(tasks)
    ensures Compatible(others)
  {
    hide Path, Admissible;
    forall i | 0 <= i < |others| ensures Admissible(others[i]) {
      var m := SamePlace(tasks, others, i);
    }
    forall i, j | 0 <= i < j < |others| ensures !Comparable(Path(others[i]), Path(others[j])) {
      var m := SamePlace(tasks, others, i);
      var n := SamePlace(tasks, others, j);
      if m == n {
        DistinctTasks(tasks);
        OnceIn(tasks, others[i]);
        TwiceCounts(others, i, j);
      } else if m < n {
        assert !Comparable(Path(tasks[m]), Path(tasks[n]));
      } else {
        assert !Comparable(Path(tasks[n]), Path(tasks[m]));
      }
    }
  }

  lemma DistinctTasks<T>(tasks: seq<TaskSpec<T>>)
    requires Compatible(tasks)
    ensures forall i, j :: 0 <= i < j < |tasks| ==> tasks[i] != tasks[j]
  {
    forall i, j | 0 <= i < j < |tasks| ensures tasks[i] != tasks[j] {
      assert !Comparable(Path(tasks[i]), Path(tasks[j]));
    }
  }

  lemma SamePlace<T>(tasks: seq<T>, others: seq<T>, i: nat) returns (m: nat)
    requires multiset(tasks) == multiset(others) && i < |others|
    ensures m < |tasks| && tasks[m] == others[i]
  {
    assert others[i] in multiset(tasks);
    m :| m < |tasks| && tasks[m] == others[i];
  }

  lemma SameFound<T>(tasks: seq<TaskSpec<T>>, others: seq<TaskSpec<T>>, path: seq<string>)
    requires multiset(tasks) == multiset(others) && Compatible(tasks) && Compatible(others)
    ensures Found(tasks, path) == Found(others, path)
  {
    hide Found, Compatible;
    FoundIff(tasks, path);
    FoundIff(others, path);
    if i: nat :| i < |others| && Path(others[i]) == path {
      var m := SamePlace(tasks, others, i);
      FoundOwn(others, i);
      FoundOwn(tasks, m);
    } else if i: nat :| i < |tasks| && Path(tasks[i]) == path {
      var m := SamePlace(others, tasks, i);
    }
  }

  // ---- Attaching ------------------------------------------------------------------------------------

  /** A command with its subcommands; `Leaf` is a task's own. */
  datatype Command<T> = Leaf(task: T) | Group(subcommands: map<string, Command<T>>)

  function Commands<T>(t: Tree<T>): map<string, Command<T>>
    decreases t, 1
  {
    Groups(t, t.subgroups.Keys) + Leaves(t, t.tasks.Keys)
  }

  /** The commands of the subgroups named in `done`. */
  function Groups<T>(t: Tree<T>, done: set<string>): map<string, Command<T>>
    decreases t, 0
  {
    map name | name in done && name in t.subgroups :: Group(Commands(t.subgroups[name]))
  }

  function Leaves<T>(t: Tree<T>, done: set<string>): map<string, Command<T>> {
    map name | name in done && name in t.tasks :: Leaf(t.tasks[name])
  }

  /** No name is taken twice, here or anywhere below. */
  ghost predicate Attachable<T>(t: Tree<T>, taken: set<string>)
    decreases t, 1
  {
    t.subgroups.Keys !! t.tasks.Keys && taken !! t.tasks.Keys && GroupsAttachable(t, taken, t.subgroups.Keys)
  }

  ghost predicate GroupsAttachable<T>(t: Tree<T>, taken: set<string>, done: set<string>)
    decreases t, 0
  {
    taken !! done && forall name :: name in done && name in t.subgroups ==> Attachable(t.subgroups[name], {})
  }

  lemma OneMoreGroup<T>(t: Tree<T>, taken: set<string>, done: set<string>, name: string)
    requires name in t.subgroups && name !in done
    ensures Groups(t, done + {name}) == Groups(t, done)[name := Group(Commands(t.subgroups[name]))]
    ensures GroupsAttachable(t, taken, done + {name}) <==>
      GroupsAttachable(t, taken, done) && name !in taken && Attachable(t.subgroups[name], {})
    ensures name !in Groups(t, done)
  {
    hide Commands;
  }

  lemma OneMoreLeaf<T>(t: Tree<T>, done: set<string>, name: string)
    requires name in t.tasks && name !in done
    ensures Leaves(t, done + {name}) == Leaves(t, done)[name := Leaf(t.tasks[name])]
    ensures name !in Leaves(t, done)
  {
  }

  lemma GroupNames<T>(t: Tree<T>, taken: set<string>)
    ensures Groups(t, t.subgroups.Keys).Keys == t.subgroups.Keys
    ensures Groups(t, {}) == map[] && Leaves(t, {}) == map[] && GroupsAttachable(t, taken, {})
  {
  }

  lemma AddKey<V>(a: map<string, V>, b: map<string, V>, name: string, value: V)
    ensures (a + b)[name := value] == a + b[name := value]
    ensures a + map[] == a && map[] + a == a
  {
  }

  /** Adds every subgroup and then every task to the commands of `root`; the names of either
      may come in any order. */
  method Attach<T>(t: Tree<T>, root: map<string, Command<T>>) returns (attached: Option<map<string, Command<T>>>)
    ensures attached.Some? <==> Attachable(t, root.Keys)
    ensures attached.Some? ==> attached.value == root + Commands(t)
    decreases t
  {
    hide Commands, Groups, Leaves, Attachable, GroupsAttachable;
    GroupNames(t, root.Keys);
    var cmds, pending := root, t.subgroups.Keys;
    AddKey(root, map[], "", Group(map[]));
    assert t.subgroups.Keys - pending == {};
    while pending != {}
      invariant pending <= t.subgroups.Keys
      invariant GroupsAttachable(t, root.Keys, t.subgroups.Keys - pending)
      invariant cmds == root + Groups(t, t.subgroups.Keys - pending)
      decreases pending
    {
      var name :| name in pending;
      ghost var done := t.subgroups.Keys - pending;
      OneMoreGroup(t, root.Keys, done, name);
      assert t.subgroups.Keys - (pending - {name}) == done + {name};
      var none: map<string, Command<T>> := map[];
      assert none.Keys == {};
      var sub := Attach(t.subgroups[name], none);
      if sub.None? || name in cmds {
        NotAttachable(t, root.Keys, done + {name});
        return None;
      }
      AddKey(root, Groups(t, done), name, Group(sub.value));
      AddKey(Commands(t.subgroups[name]), map[], name, Group(sub.value));
      cmds := cmds[name := Group(sub.value)];
      pending := pending - {name};
    }
    assert t.subgroups.Keys - pending == t.subgroups.Keys;
    pending := t.tasks.Keys;
    ghost var groups := root + Groups(t, t.subgroups.Keys);
    AddKey(groups, map[], "", Group(map[]));
    assert t.tasks.Keys - pending == {};
    while pending != {}
      invariant pending <= t.tasks.Keys
      invariant root.Keys !! t.tasks.Keys - pending && t.subgroups.Keys !! t.tasks.Keys - pending
      invariant cmds == groups + Leaves(t, t.tasks.Keys - pending)
      decreases pending
    {
      var name :| name in pending;
      ghost var done := t.tasks.Keys - pending;
      OneMoreLeaf(t, done, name);
      assert t.tasks.Keys - (pending - {name}) == done + {name};
      if name in cmds {
        TakenTask(t, root.Keys, name);
        return None;
      }
      AddKey(groups, Leaves(t, done), name, Leaf(t.tasks[name]));
      cmds := cmds[name := Leaf(t.tasks[name])];
      pending := pending - {name};
    }
    assert t.tasks.Keys - pending == t.tasks.Keys;
    AllAttached(t, root);
    attached := Some(cmds);
  }

  lemma NotAttachable<T>(t: Tree<T>, taken: set<string>, done: set<string>)
    requires done <= t.subgroups.Keys && !GroupsAttachable(t, taken, done)
    ensures !Attachable(t, taken)
  {
  }

  lemma TakenTask<T>(t: Tree<T>, taken: set<string>, name: string)
    requires name in t.tasks && (name in taken || name in t.subgroups)
    ensures !Attachable(t, taken)
  {
  }

  lemma AllAttached<T>(t: Tree<T>, root: map<string, Command<T>>)
    requires root.Keys !! t.tasks.Keys && t.subgroups.Keys !! t.tasks.Keys
      && GroupsAttachable(t, root.Keys, t.subgroups.Keys)
    ensures Attachable(t, root.Keys)
    ensures root + Groups(t, t.subgroups.Keys) + Leaves(t, t.tasks.Keys) == root + Commands(t)
  {
    hide Groups, Leaves;
  }

  /** The task a command line reaches by naming subcommands. */
  function Resolve<T>(cmds: map<string, Command<T>>, path: seq<string>): Option<T>
    decreases |path|
  {
    if path == [] || path[0] !in cmds then None
    else
      match cmds[path[0]]
      case Leaf(task) => if |path| == 1 then Some(task) else None
      case Group(sub) => Resolve(sub, path[1..])
  }

  /** Attaching preserves what every path leads to. */
  lemma {:induction false} AttachedCommandsResolve<T>(t: Tree<T>, path: seq<string>)
    requires Attachable(t, {})
    ensures Resolve(Commands(t), path) == Lookup(t, path)
    decreases |path|
  {
    if path != [] && path[0] in t.subgroups {
      assert path[0] in Groups(t, t.subgroups.Keys) && path[0] !in t.tasks;
      assert Commands(t)[path[0]] == Group(Commands(t.subgroups[path[0]]));
      AttachedCommandsResolve(t.subgroups[path[0]], path[1..]);
      if |path| == 1 {
        assert path[1..] == [];
      }
    }
  }

  lemma {:induction false} InsertKeepsAttachable<T>(t: Tree<T>, name: string, fullGroup: seq<string>,
                                                    remaining: seq<string>, command: T)
    requires Attachable(t, {}) && InsertAt(t, name, fullGroup, remaining, command).Ok?
    ensures Attachable(InsertAt(t, name, fullGroup, remaining, command).tree, {})
    decreases |remaining|
  {
    if remaining != [] {
      InsertKeepsAttachable(Subgroup(t, remaining[0]), name, fullGroup, remaining[1..], command);
    }
  }

  lemma {:induction false} BuiltTreesAreAttachable<T>(tasks: seq<TaskSpec<T>>)
    requires Build(tasks).Ok?
    ensures Attachable(Build(tasks).tree, {})
  {
    hide InsertAt;
    if tasks != [] {
      var last := tasks[|tasks| - 1];
      BuiltTreesAreAttachable(tasks[..|tasks| - 1]);
      InsertKeepsAttachable(Build(tasks[..|tasks| - 1]).tree, last.kind, last.group, last.group, last.command);
    }
  }

  /** Attaching a built tree to the root fails exactly on a clash with a command the root
      already has: when the path of some task begins with such a name. */
  lemma OnlyBuiltinsClash<T>(tasks: seq<TaskSpec<T>>, builtin: set<string>)
    requires Build(tasks).Ok?
    ensures Attachable(Build(tasks).tree, builtin) <==> forall i :: 0 <= i < |tasks| ==> Path(tasks[i])[0] !in builtin
  {
    hide Build, Found;
    var t := Build(tasks).tree;
    BuiltTreesAreAttachable(tasks);
    forall i | 0 <= i < |tasks|
      ensures Path(tasks[i])[0] in t.subgroups || Path(tasks[i])[0] in t.tasks
    {
      var path := Path(tasks[i]);
      BuiltTree(tasks, path);
      FoundIff(tasks, path);
      assert Lookup(t, path).Some?;
    }
    forall name | name in t.subgroups || name in t.tasks
      ensures exists i :: 0 <= i < |tasks| && Path(tasks[i])[0] == name
    {
      BuiltTree(tasks, [name]);
      FoundIff(tasks, [name]);
      TopName(t, name);
      if name in t.subgroups {
        var i :| 0 <= i < |tasks| && [name] < Path(tasks[i]);
        assert Path(tasks[i])[0] == [name][0];
      }
    }
  }

  lemma TopName<T>(t: Tree<T>, name: string)
    ensures HasGroup(t, [name]) <==> name in t.subgroups
    ensures Lookup(t, [name]).Some? <==> name in t.tasks
  {
  }
}
