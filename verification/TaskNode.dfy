/** The command tree as the program holds it: nodes that own their subgroups and are
    updated in place. */
module TaskNodes {
  import opened Prelude
  import opened TaskTree

  class Node<T> {
    var subgroups: map<string, Node<T>>
    var tasks: map<string, T>
    ghost var Repr: set<object>

    ghost predicate Valid()
      reads this, Repr
      decreases Repr, 1
    {
      this in Repr && Disjoint() && forall name :: name in subgroups ==> Owns(name)
    }

    /** The subgroup is a valid node inside this one's footprint, this node not in its. */
    ghost predicate Owns(name: string)
      requires this in Repr && name in subgroups
      reads this, Repr
      decreases Repr, 0
    {
      var sub := subgroups[name];
      sub in Repr && sub.Repr <= Repr && this !in sub.Repr && sub.Valid()
    }

    ghost predicate Disjoint()
      requires this in Repr
      reads this, Repr
    {
      forall a, b :: a in subgroups && b in subgroups && a != b && subgroups[a] in Repr && subgroups[b] in Repr ==>
        subgroups[a].Repr !! subgroups[b].Repr
    }

    ghost function View(): Tree<T>
      requires Valid()
      reads this, Repr
      decreases Repr
    {
      Tree(map name | name in subgroups :: assert Owns(name); subgroups[name].View(), tasks)
    }

    constructor ()
      ensures Valid() && fresh(Repr) && View() == Empty()
    {
      subgroups, tasks, Repr := map[], map[], {this};
    }

    /** The subgroup of that name, which is added when missing. */
    method Entry(head: string) returns (sub: Node<T>)
      requires Valid()
      modifies this
      ensures Valid() && fresh(Repr - old(Repr)) && old(Repr) <= Repr
      ensures head in subgroups && sub == subgroups[head] && Owns(head) && tasks == old(tasks)
      ensures sub.View() == Subgroup(old(View()), head)
      ensures View() == old(View()).(subgroups := old(View()).subgroups[head := sub.View()])
    {
      if head !in subgroups {
        var added := new Node();
        subgroups := subgroups[head := added];
        Repr := Repr + added.Repr;
        OneSubgroupAdded(head);
      }
      assert Owns(head);
      sub := subgroups[head];
    }

    twostate lemma SubgroupStays(name: string)
      requires old(Valid()) && name in old(subgroups) && name in subgroups && subgroups[name] == old(subgroups[name])
      requires unchanged(old(subgroups[name].Repr))
      ensures old(subgroups[name].Valid()) && subgroups[name].Valid()
        && subgroups[name].View() == old(subgroups[name].View())
      ensures subgroups[name].Repr == old(subgroups[name].Repr)
    {
      assert old(Owns(name));
    }

    twostate lemma OneSubgroupAdded(head: string)
      requires old(Valid()) && head !in old(subgroups) && head in subgroups && tasks == old(tasks)
      requires subgroups == old(subgroups)[head := subgroups[head]]
      requires subgroups[head].Valid() && fresh(subgroups[head].Repr)
      requires Repr == old(Repr) + subgroups[head].Repr && unchanged(old(Repr) - {this})
      ensures Valid() && View() == old(View()).(subgroups := old(View()).subgroups[head := subgroups[head].View()])
    {
      hide View;
      AddedIsValid(head);
      AddedIsSeen(head);
    }

    twostate lemma AddedIsValid(head: string)
      requires old(Valid()) && head !in old(subgroups) && head in subgroups
      requires subgroups == old(subgroups)[head := subgroups[head]]
      requires subgroups[head].Valid() && fresh(subgroups[head].Repr)
      requires Repr == old(Repr) + subgroups[head].Repr && unchanged(old(Repr) - {this})
      ensures Valid()
    {
      hide View;
      forall name | name in subgroups && name != head
        ensures Owns(name) && subgroups[name].Repr == old(subgroups[name].Repr)
      {
        assert old(Owns(name));
        SubgroupStays(name);
      }
      assert subgroups[head] in subgroups[head].Repr;
      assert Owns(head);
      assert old(Disjoint());
    }

    twostate lemma AddedIsSeen(head: string)
      requires old(Valid()) && Valid() && head !in old(subgroups) && head in subgroups && tasks == old(tasks)
      requires subgroups == old(subgroups)[head := subgroups[head]] && unchanged(old(Repr) - {this})
      ensures View() == old(View()).(subgroups := old(View()).subgroups[head := View().subgroups[head]])
      ensures Owns(head) && View().subgroups[head] == subgroups[head].View()
    {
      hide View;
      ViewShows();
      ViewAt(head);
      OldViewShows();
      forall name | name in subgroups && name != head ensures View().subgroups[name] == old(View()).subgroups[name] {
        ViewAt(name);
        OwnedStays(name);
      }
    }

    lemma ViewAt(name: string)
      requires Valid() && name in subgroups
      ensures Owns(name) && name in View().subgroups && View().subgroups[name] == subgroups[name].View()
    {
      assert Owns(name);
    }

    twostate lemma OldViewShows()
      requires old(Valid())
      ensures old(View()).tasks == old(tasks) && old(View()).subgroups.Keys == old(subgroups).Keys
    {
    }

    twostate lemma OwnedStays(name: string)
      requires old(Valid()) && name in old(subgroups) && name in subgroups && subgroups[name] == old(subgroups[name])
      requires unchanged(old(Repr) - {this})
      ensures subgroups[name].Valid() && name in old(View()).subgroups
        && subgroups[name].View() == old(View()).subgroups[name]
    {
      assert old(Owns(name));
      SubgroupStays(name);
    }

    ghost predicate Shows(t: Tree<T>)
      reads this
    {
      t.tasks == tasks && t.subgroups.Keys == subgroups.Keys
    }

    lemma ViewShows()
      requires Valid()
      ensures Shows(View())
    {
    }

    /** An update inside one subgroup, which may only grow by new nodes, leaves the rest of
        the tree as it was. */
    twostate lemma OneSubgroupChanged(head: string)
      requires old(Valid()) && head in subgroups && subgroups == old(subgroups) && tasks == old(tasks)
      requires subgroups[head].Valid() && fresh(subgroups[head].Repr - old(subgroups[head].Repr))
      requires Repr == old(Repr) + subgroups[head].Repr
      requires unchanged(old(Repr) - old(subgroups[head].Repr) - {this})
      ensures Valid() && View() == old(View()).(subgroups := old(View()).subgroups[head := subgroups[head].View()])
    {
      assert old(Owns(head));
      forall name | name in subgroups && name != head
        ensures Owns(name) && subgroups[name].View() == old(subgroups[name].View())
          && subgroups[name].Repr == old(subgroups[name].Repr)
      {
        assert old(Owns(name)) && old(Disjoint());
        assert unchanged(old(subgroups[name].Repr));
      }
      assert Owns(head);
      assert old(Disjoint());
    }

    method AddTask(name: string, command: T)
      requires Valid()
      modifies this
      ensures Valid() && Repr == old(Repr)
      ensures View() == old(View()).(tasks := old(tasks)[name := command])
    {
      tasks := tasks[name := command];
      forall other | other in subgroups
        ensures Owns(other) && subgroups[other].View() == old(subgroups[other].View())
          && subgroups[other].Repr == old(subgroups[other].Repr)
      {
        assert old(Owns(other));
      }
      assert old(Disjoint());
    }

    /** Inserts below this node. A refusal leaves the tree as it was. */
    method InsertAt(name: string, fullGroup: seq<string>, remaining: seq<string>, command: T)
        returns (error: Option<Error>)
      requires Valid()
      modifies Repr
      ensures Valid() && fresh(Repr - old(Repr))
      ensures Outcome(TaskTree.InsertAt(old(View()), name, fullGroup, remaining, command), old(View()), error)
      decreases |remaining|
    {
      hide View, TaskTree.InsertAt;
      ViewShows();
      InsertHere(View(), name, fullGroup, command);
      if |remaining| == 0 {
        if name in subgroups || name in tasks {
          return Some(NameConflict(name, fullGroup));
        }
        AddTask(name, command);
        return None;
      }
      var head := remaining[0];
      InsertBelow(View(), name, fullGroup, remaining, command);
      if head in tasks {
        return Some(NameConflict(head, fullGroup));
      }
      var sub := Entry(head);
      label Entered:
      error := sub.InsertAt(name, fullGroup, remaining[1..], command);
      Repr := Repr + sub.Repr;
      OneSubgroupChanged@Entered(head);
    }

    /** This node shows what an insertion into `before` should give, whether or not it succeeds. */
    ghost predicate Outcome(expected: Result<T>, before: Tree<T>, error: Option<Error>)
      requires Valid()
      reads this, Repr
    {
      if expected.Ok? then error.None? && View() == expected.tree else error == Some(expected.error) && View() == before
    }

    method Insert(task: TaskSpec<T>) returns (error: Option<Error>)
      requires Valid()
      modifies Repr
      ensures Valid() && fresh(Repr - old(Repr))
      ensures Outcome(TaskTree.Insert(old(View()), task), old(View()), error)
    {
      hide TaskTree.InsertAt, View, Valid;
      if |task.group| > MAX_TASK_GROUPS {
        return Some(TooManyGroups(task.kind));
      }
      if |task.group| == 0 && task.kind in RESERVED_TOP_LEVEL_COMMANDS {
        return Some(ReservedName(task.kind));
      }
      error := InsertAt(task.kind, task.group, task.group, task.command);
    }
  }

  lemma InsertHere<T>(t: Tree<T>, name: string, fullGroup: seq<string>, command: T)
    ensures TaskTree.InsertAt(t, name, fullGroup, [], command) ==
      if name in t.subgroups || name in t.tasks then Err(NameConflict(name, fullGroup))
      else Ok(t.(tasks := t.tasks[name := command]))
  {
  }

  lemma InsertBelow<T>(t: Tree<T>, name: string, fullGroup: seq<string>, remaining: seq<string>, command: T)
    requires remaining != []
    ensures var sub := TaskTree.InsertAt(Subgroup(t, remaining[0]), name, fullGroup, remaining[1..], command);
      TaskTree.InsertAt(t, name, fullGroup, remaining, command) ==
        (if remaining[0] in t.tasks then Err(NameConflict(remaining[0], fullGroup))
         else if sub.Ok? then Ok(t.(subgroups := t.subgroups[remaining[0] := sub.tree]))
         else sub)
      && (sub.Err? ==> t.(subgroups := t.subgroups[remaining[0] := Subgroup(t, remaining[0])]) == t)
  {
    InsertIntoEmpty(name, fullGroup, remaining[1..], command);
  }

  /** Inserts the tasks in order into an empty tree; the first refusal stops. */
  method BuildTree<T>(tasks: seq<TaskSpec<T>>) returns (root: Node<T>, error: Option<Error>)
    ensures root.Valid() && fresh(root.Repr)
    ensures Build(tasks).Ok? <==> error.None?
    ensures Build(tasks).Ok? ==> root.View() == Build(tasks).tree
    ensures Build(tasks).Err? ==> error == Some(Build(tasks).error)
  {
    hide TaskTree.Insert;
    root := new Node();
    error := None;
    var i := 0;
    while i < |tasks|
      invariant 0 <= i <= |tasks| && root.Valid() && fresh(root.Repr) && error.None?
      invariant Build(tasks[..i]).Ok? && root.View() == Build(tasks[..i]).tree
    {
      assert tasks[..i + 1][..i] == tasks[..i];
      error := root.Insert(tasks[i]);
      if error.Some? {
        BuildStops(tasks, i + 1);
        return;
      }
      i := i + 1;
    }
    assert tasks[..i] == tasks;
  }

  lemma {:induction false} BuildStops<T>(tasks: seq<TaskSpec<T>>, n: nat)
    requires n <= |tasks| && Build(tasks[..n]).Err?
    ensures Build(tasks) == Build(tasks[..n])
    decreases |tasks|
  {
    if n == |tasks| {
      assert tasks[..n] == tasks;
    } else {
      assert tasks[..|tasks| - 1][..n] == tasks[..n];
      BuildStops(tasks[..|tasks| - 1], n);
    }
  }
}
