/**
 The pairwise reduction of the analysis: rounds of tasks, each comparing two trees and
 merging the second into the first, until one tree is left.
 */
module Tournament {

  /** A comparison of two trees, by the threads whose accesses they hold. */
  datatype Comparison = Comparison(left: set<nat>, right: set<nat>)

  datatype Task = Task(last: bool, tree1: nat, tree2: nat)

  ghost predicate Covers(c: Comparison, a: nat, b: nat) {
    (a in c.left && b in c.right) || (b in c.left && a in c.right)
  }

  /** How often two threads have been compared. */
  ghost function Times(cs: seq<Comparison>, a: nat, b: nat): nat {
    if cs == [] then 0 else Times(cs[..|cs| - 1], a, b) + if Covers(cs[|cs| - 1], a, b) then 1 else 0
  }

  lemma TimesMore(cs: seq<Comparison>, c: Comparison, a: nat, b: nat)
    ensures Times(cs + [c], a, b) == Times(cs, a, b) + if Covers(c, a, b) then 1 else 0
  {
    assert (cs + [c])[..|cs|] == cs;
  }

  type Contents = map<nat, set<nat>>

  /** The two threads are in one tree. */
  ghost predicate Together(live: set<nat>, content: Contents, a: nat, b: nat) {
    exists t :: t in live && t in content && a in content[t] && b in content[t]
  }

  ghost predicate Somewhere(live: set<nat>, content: Contents, a: nat) {
    exists t :: t in live && t in content && a in content[t]
  }

  ghost predicate Apart(live: set<nat>, content: Contents) {
    forall t, u :: t in live && u in live && t != u && t in content && u in content ==> content[t] !! content[u]
  }

  /** The live trees partition the threads, and two threads have been compared, once, just
      when they have come into one tree. */
  ghost predicate Reducing(threads: set<nat>, live: set<nat>, content: Contents, compared: seq<Comparison>) {
    && live <= content.Keys && Apart(live, content)
    && (forall t, a :: t in live && t in content && a in content[t] ==> a in threads)
    && (forall a :: a in threads ==> Somewhere(live, content, a))
    && forall a, b :: a in threads && b in threads && a != b ==>
         Times(compared, a, b) == if Together(live, content, a, b) then 1 else 0
  }

  /** All pairs, once each. */
  ghost predicate Complete(threads: set<nat>, compared: seq<Comparison>) {
    forall a, b :: a in threads && b in threads && a != b ==> Times(compared, a, b) == 1
  }

  /** One task of a round. */
  lemma MergeStep(threads: set<nat>, live: set<nat>, content: Contents, compared: seq<Comparison>, t: nat, u: nat)
    requires Reducing(threads, live, content, compared) && t in live && u in live && t != u
    ensures Reducing(threads, live - {u}, content[t := content[t] + content[u]], compared + [Comparison(content[t], content[u])])
  {
    var live', content' := live - {u}, content[t := content[t] + content[u]];
    var c := Comparison(content[t], content[u]);
    forall a | a in threads ensures Somewhere(live', content', a) {
      var v :| v in live && v in content && a in content[v];
      assert a in content'[if v == u then t else v];
    }
    forall a, b | a in threads && b in threads && a != b
      ensures Times(compared + [c], a, b) == if Together(live', content', a, b) then 1 else 0
    {
      TimesMore(compared, c, a, b);
      PairStep(live, content, t, u, a, b);
    }
    hide Somewhere, Together;
    assert Apart(live', content');
  }

  lemma PairStep(live: set<nat>, content: Contents, t: nat, u: nat, a: nat, b: nat)
    requires live <= content.Keys && Apart(live, content) && t in live && u in live && t != u
    ensures Together(live - {u}, content[t := content[t] + content[u]], a, b) <==>
      Together(live, content, a, b) || Covers(Comparison(content[t], content[u]), a, b)
    ensures !(Together(live, content, a, b) && Covers(Comparison(content[t], content[u]), a, b))
  {
    var live', content' := live - {u}, content[t := content[t] + content[u]];
    if Together(live, content, a, b) {
      var v :| v in live && v in content && a in content[v] && b in content[v];
      var w := if v == u then t else v;
      assert w in live' && w in content' && a in content'[w] && b in content'[w];
    }
    if Covers(Comparison(content[t], content[u]), a, b) {
      assert t in live' && a in content'[t] && b in content'[t];
    }
  }

  /** The very last comparison needs no merge. */
  lemma LastStep(threads: set<nat>, content: Contents, compared: seq<Comparison>, t: nat, u: nat)
    requires t != u && Reducing(threads, {t, u}, content, compared)
    ensures Complete(threads, compared + [Comparison(content[t], content[u])])
  {
    MergeStep(threads, {t, u}, content, compared, t, u);
    assert {t, u} - {u} == {t};
    var content', compared' := content[t := content[t] + content[u]], compared + [Comparison(content[t], content[u])];
    forall a, b | a in threads && b in threads && a != b ensures Times(compared', a, b) == 1 {
      assert Somewhere({t}, content', a) && Somewhere({t}, content', b);
      assert Together({t}, content', a, b);
    }
  }

  // ---------- a round ----------

  ghost function Elements(s: seq<nat>): set<nat> {
    set x | x in s
  }

  ghost predicate NoDuplicates(s: seq<nat>) {
    forall i, j :: 0 <= i < j < |s| ==> s[i] != s[j]
  }

  /** The tasks pair up neighbours; what they leave is every other tree. */
  ghost predicate Paired(trees: seq<nat>, tasks: seq<Task>, kept: seq<nat>) {
    && 2 * |tasks| <= |trees| && |kept| == |trees| - |tasks|
    && (forall k :: 0 <= k < |tasks| ==> tasks[k] == Task(|trees| == 2, trees[2 * k], trees[2 * k + 1]) && kept[k] == trees[2 * k])
    && (forall k :: |tasks| <= k < |kept| ==> kept[k] == trees[k + |tasks|])
  }

  lemma PairNone(trees: seq<nat>)
    ensures Paired(trees, [], trees)
  {}

  /** The next pair. */
  lemma PairNext(trees: seq<nat>, tasks: seq<Task>, kept: seq<nat>)
    requires Paired(trees, tasks, kept) && 2 * |tasks| + 2 <= |trees|
    ensures |kept| >= |tasks| + 2
    ensures var k := |tasks|; Paired(trees, tasks + [Task(|kept| == 2, kept[k], kept[k + 1])], kept[..k + 1] + kept[k + 2..])
  {
    var k := |tasks|;
    assert kept[k] == trees[2 * k] && kept[k + 1] == trees[2 * k + 1];
  }

  /** No tree takes part in two tasks of a round. */
  lemma TasksDisjoint(trees: seq<nat>, tasks: seq<Task>, kept: seq<nat>, i: nat, j: nat)
    requires NoDuplicates(trees) && Paired(trees, tasks, kept) && i < |tasks| && j < |tasks|
    ensures tasks[i].tree1 != tasks[j].tree2
    ensures i != j ==> tasks[i].tree1 != tasks[j].tree1 && tasks[i].tree2 != tasks[j].tree2
  {}

  ghost function Seconds(tasks: seq<Task>, todo: set<nat>): set<nat>
    requires forall k :: k in todo ==> k < |tasks|
  {
    set k | k in todo :: tasks[k].tree2
  }

  lemma KeptElements(trees: seq<nat>, tasks: seq<Task>, kept: seq<nat>)
    requires NoDuplicates(trees) && Paired(trees, tasks, kept)
    ensures Elements(trees) == Elements(kept) + Seconds(tasks, Indices(|tasks|))
    ensures NoDuplicates(kept)
  {
    forall x ensures x in Elements(trees) <==> x in Elements(kept) || x in Seconds(tasks, Indices(|tasks|)) {
      if x in trees { Splits(trees, tasks, kept, x); }
      if x in kept || x in Seconds(tasks, Indices(|tasks|)) { Joins(trees, tasks, kept, x); }
    }
    KeptDistinct(trees, tasks, kept);
    hide Paired, Seconds, Indices, NoDuplicates;
  }

  lemma KeptDistinct(trees: seq<nat>, tasks: seq<Task>, kept: seq<nat>)
    requires NoDuplicates(trees) && Paired(trees, tasks, kept)
    ensures NoDuplicates(kept)
  {
    forall i, j | 0 <= i < j < |kept| ensures kept[i] != kept[j] {
      var i', j' := if i < |tasks| then 2 * i else i + |tasks|, if j < |tasks| then 2 * j else j + |tasks|;
      assert kept[i] == trees[i'] && kept[j] == trees[j'];
    }
  }

  lemma Splits(trees: seq<nat>, tasks: seq<Task>, kept: seq<nat>, x: nat)
    requires Paired(trees, tasks, kept) && x in trees
    ensures x in kept || x in Seconds(tasks, Indices(|tasks|))
  {
    var i :| 0 <= i < |trees| && trees[i] == x;
    if i >= 2 * |tasks| {
      assert kept[i - |tasks|] == x;
    } else if i % 2 == 0 {
      assert kept[i / 2] == trees[2 * (i / 2)] == x;
    } else {
      assert i / 2 in Indices(|tasks|) && tasks[i / 2].tree2 == trees[2 * (i / 2) + 1] == x;
    }
  }

  lemma Joins(trees: seq<nat>, tasks: seq<Task>, kept: seq<nat>, x: nat)
    requires Paired(trees, tasks, kept) && (x in kept || x in Seconds(tasks, Indices(|tasks|)))
    ensures x in trees
  {
    if x in kept {
      var k :| 0 <= k < |kept| && kept[k] == x;
      assert x == if k < |tasks| then trees[2 * k] else trees[k + |tasks|];
    } else {
      var k :| k in Indices(|tasks|) && tasks[k].tree2 == x;
      assert x == trees[2 * k + 1];
    }
  }

  function Indices(n: nat): (r: set<nat>)
    ensures |r| == n && forall k: nat :: k in r <==> k < n
  {
    if n == 0 then {} else Indices(n - 1) + {n - 1}
  }

  class Analysis {
    var trees: seq<nat>      // interval_trees
    var content: Contents    // the threads merged into each tree
    ghost var compared: seq<Comparison>
    ghost var skipped: nat   // comparisons without a merge

    constructor (threads: seq<nat>)
      ensures trees == threads && compared == [] && skipped == 0 && content == map t | t in threads :: {t}
    {
      trees, content, compared, skipped := threads, map t | t in threads :: {t}, [], 0;
    }

    /** `analyze_trees` */
    method AnalyzeTrees(task: Task)
      requires task.tree1 in content && task.tree2 in content
      modifies this`content, this`compared, this`skipped
      ensures compared == old(compared) + [Comparison(old(content)[task.tree1], old(content)[task.tree2])]
      ensures content == if task.last then old(content) else
        old(content)[task.tree1 := old(content)[task.tree1] + old(content)[task.tree2]]
      ensures skipped == old(skipped) + if task.last then 1 else 0
    {
      compared := compared + [Comparison(content[task.tree1], content[task.tree2])];
      if !task.last {
        content := content[task.tree1 := content[task.tree1] + content[task.tree2]];
      } else {
        skipped := skipped + 1;
      }
    }

    /** The inner loop: pair up neighbours, erasing the second of each pair from the list. */
    method PairUp() returns (tasks: seq<Task>)
      requires |trees| > 1
      modifies this`trees
      ensures Paired(old(trees), tasks, trees) && |tasks| == |old(trees)| / 2
    {
      ghost var n := |trees|;
      var lstSize, it := |trees|, 0;
      tasks := [];
      PairNone(trees);
      hide Paired;
      while lstSize != 1 && it != |trees|
        invariant lstSize == n - 2 * |tasks| && 0 <= lstSize && it == |tasks| && |trees| == n - it
        invariant Paired(old(trees), tasks, trees)
        decreases lstSize
      {
        PairNext(old(trees), tasks, trees);
        var last := |trees| == 2;
        var tree1 := trees[it];
        it := it + 1;
        var tree2 := trees[it];
        var del := it;
        trees := trees[..del] + trees[del + 1..];
        lstSize := lstSize - 2;
        tasks := tasks + [Task(last, tree1, tree2)];
      }
    }

    /** The tasks of a round run in any order. */
    method RunAll(tasks: seq<Task>, ghost before: seq<nat>, ghost threads: set<nat>)
      requires |before| > 2 && NoDuplicates(before) && Paired(before, tasks, trees)
      requires Reducing(threads, Elements(before), content, compared)
      modifies this`content, this`compared, this`skipped
      ensures Reducing(threads, Elements(trees), content, compared)
      ensures |compared| == |old(compared)| + |tasks| && skipped == old(skipped)
    {
      var todo := Indices(|tasks|);
      ghost var live := Elements(before);
      KeptElements(before, tasks, trees);
      while todo != {}
        invariant forall k :: k in todo ==> k < |tasks|
        invariant live == Elements(trees) + Seconds(tasks, todo) && Reducing(threads, live, content, compared)
        invariant |compared| + |todo| == |old(compared)| + |tasks| && skipped == old(skipped)
        decreases todo
      {
        var k :| k in todo;
        TaskLive(before, tasks, trees, todo, k);
        MergeStep(threads, live, content, compared, tasks[k].tree1, tasks[k].tree2);
        AnalyzeTrees(tasks[k]);
        live, todo := live - {tasks[k].tree2}, todo - {k};
      }
      assert live == Elements(trees);
    }

    /** The whole reduction. */
    method Reduce(ghost threads: set<nat>)
      requires NoDuplicates(trees) && Reducing(threads, Elements(trees), content, compared) && compared == [] && skipped == 0
      modifies this
      ensures Complete(threads, compared) && |trees| == if |old(trees)| == 0 then 0 else 1
      ensures |compared| == if |old(trees)| == 0 then 0 else |old(trees)| - 1
      ensures skipped == if |old(trees)| > 1 then 1 else 0
    {
      if |trees| <= 1 { OneLeft(threads, trees, content, compared); }
      while |trees| > 1
        invariant NoDuplicates(trees) && (|trees| <= 1 ==> Complete(threads, compared))
        invariant |trees| > 1 ==> Reducing(threads, Elements(trees), content, compared)
        invariant |compared| + |trees| == |old(trees)| && (old(trees) != [] ==> trees != [])
        invariant skipped == if |trees| <= 1 < |old(trees)| then 1 else 0
        decreases |trees|
      {
        ghost var before := trees;
        var tasks := PairUp();
        KeptElements(before, tasks, trees);
        if |tasks| == 1 && tasks[0].last {
          assert Elements(before) == {before[0], before[1]};
          LastStep(threads, content, compared, before[0], before[1]);
          AnalyzeTrees(tasks[0]);
        } else {
          RunAll(tasks, before, threads);
        }
      }
    }
  }

  lemma TaskLive(before: seq<nat>, tasks: seq<Task>, kept: seq<nat>, todo: set<nat>, k: nat)
    requires NoDuplicates(before) && Paired(before, tasks, kept) && |before| > 2
    requires (forall j :: j in todo ==> j < |tasks|) && k in todo
    ensures !tasks[k].last && tasks[k].tree1 != tasks[k].tree2
    ensures tasks[k].tree1 in Elements(kept) && tasks[k].tree2 in Seconds(tasks, todo)
    ensures Elements(kept) + Seconds(tasks, todo) - {tasks[k].tree2} == Elements(kept) + Seconds(tasks, todo - {k})
  {
    TasksDisjoint(before, tasks, kept, k, k);
    assert kept[k] == tasks[k].tree1;
    forall x | x in Elements(kept) ensures x != tasks[k].tree2 {
      var i :| 0 <= i < |kept| && kept[i] == x;
      assert x == if i < |tasks| then before[2 * i] else before[i + |tasks|];
    }
    forall x | x in Seconds(tasks, todo - {k}) ensures x != tasks[k].tree2 {
      var j :| j in todo - {k} && tasks[j].tree2 == x;
      TasksDisjoint(before, tasks, kept, j, k);
    }
    forall x | x in Seconds(tasks, todo) && x != tasks[k].tree2 ensures x in Seconds(tasks, todo - {k}) {
      var j :| j in todo && tasks[j].tree2 == x;
      assert j in todo - {k};
    }
  }

  lemma OneLeft(threads: set<nat>, trees: seq<nat>, content: Contents, compared: seq<Comparison>)
    requires |trees| <= 1 && Reducing(threads, Elements(trees), content, compared)
    ensures Complete(threads, compared)
  {
    forall a, b | a in threads && b in threads && a != b ensures Times(compared, a, b) == 1 {
      assert Somewhere(Elements(trees), content, a) && Somewhere(Elements(trees), content, b);
      assert Together(Elements(trees), content, a, b);
    }
  }

  /** From one tree per thread: every unordered pair of distinct threads is compared exactly
      once, and only the last comparison goes without a merge. */
  method CompareThreads(threads: seq<nat>) returns (r: Analysis)
    requires NoDuplicates(threads)
    ensures Complete(Elements(threads), r.compared)
    ensures |r.compared| == (if threads == [] then 0 else |threads| - 1) && r.skipped == if |threads| > 1 then 1 else 0
  {
    r := new Analysis(threads);
    StartsApart(threads, r.content);
    r.Reduce(Elements(threads));
  }

  lemma StartsApart(threads: seq<nat>, content: Contents)
    requires content == map t | t in threads :: {t}
    ensures Reducing(Elements(threads), Elements(threads), content, [])
  {
    forall a | a in Elements(threads) ensures Somewhere(Elements(threads), content, a) {
      assert a in content[a];
    }
  }
}
