/** Handy haversacks (src/day_seven.rs): each bag records the bags that directly contain it
    (with the count) and the bags it directly contains. The parents search collects every
    bag that can eventually contain a given one, and the children count the bags it holds. */
module DaySeven {
  import opened Common

  datatype Bag = Bag(parents: map<string, nat>, children: seq<(string, nat)>)

  type Tree = map<string, Bag>

  /** Every name that occurs as a parent of some bag of the tree. */
  function ParentNames(tree: Tree): set<string>
  {
    set k, n | k in tree && n in tree[k].parents :: n
  }

  /** `p` is a chain of parent links starting at a parent of `bag`. */
  predicate IsPath(tree: Tree, bag: Bag, p: seq<string>)
  {
    |p| >= 1 && p[0] in bag.parents
    && forall i | 0 <= i < |p| - 1 :: p[i] in tree && p[i + 1] in tree[p[i]].parents
  }

  /** Bag `n` can (eventually) contain `bag`. */
  ghost predicate Reachable(tree: Tree, bag: Bag, n: string)
  {
    exists p :: IsPath(tree, bag, p) && p[|p| - 1] == n
  }

  lemma PathPrepend(tree: Tree, bag: Bag, key: string, p: seq<string>)
    requires key in bag.parents && key in tree && IsPath(tree, tree[key], p)
    ensures IsPath(tree, bag, [key] + p) && ([key] + p)[|p|] == p[|p| - 1]
  {
    var q := [key] + p;
    forall i | 0 <= i < |q| - 1 ensures q[i] in tree && q[i + 1] in tree[q[i]].parents {
      if i > 0 {
        assert q[i] == p[i - 1] && q[i + 1] == p[i];
      }
    }
  }

  /** `search_parents`: for every parent key not yet in `parents`, inserts it and, when
      the key names a bag of the tree, searches that bag's parents with the same set. The
      set only grows; every bag it adds can contain `bag`; every parent of `bag` ends up in
      it; and every bag it adds has had its own parents added. It recurses only after a
      fresh insert of a name it has not seen, which bounds the recursion. */
  method SearchParents(bag: Bag, tree: Tree, parents: set<string>) returns (result: set<string>)
    ensures parents <= result
    ensures bag.parents.Keys <= result
    ensures forall n | n in result - parents && n in tree :: tree[n].parents.Keys <= result
    ensures forall n | n in result - parents :: Reachable(tree, bag, n)
    decreases ParentNames(tree) + bag.parents.Keys - parents
  {
    result := parents;
    var todo := bag.parents.Keys;
    while todo != {}
      invariant todo <= bag.parents.Keys
      invariant parents <= result
      invariant bag.parents.Keys - todo <= result
      invariant forall n | n in result - parents && n in tree :: tree[n].parents.Keys <= result
      invariant forall n | n in result - parents :: Reachable(tree, bag, n)
      decreases todo
    {
      var key :| key in todo;
      todo := todo - {key};
      if key !in result {
        assert IsPath(tree, bag, [key]);
        result := result + {key};
        if key in tree {
          ghost var before := result;
          assert tree[key].parents.Keys <= ParentNames(tree);
          result := SearchParents(tree[key], tree, result);
          forall n | n in result - before ensures Reachable(tree, bag, n) {
            var p :| IsPath(tree, tree[key], p) && p[|p| - 1] == n;
            PathPrepend(tree, bag, key, p);
          }
        }
      }
    }
  }

  /** A set holding the parents of `bag` and, for each of its bags of the tree, that bag's
      parents. */
  predicate ClosedFrom(tree: Tree, bag: Bag, s: set<string>)
  {
    bag.parents.Keys <= s && forall n | n in s && n in tree :: tree[n].parents.Keys <= s
  }

  lemma {:induction false} ClosedHasPaths(tree: Tree, bag: Bag, s: set<string>, p: seq<string>)
    requires ClosedFrom(tree, bag, s) && IsPath(tree, bag, p)
    ensures p[|p| - 1] in s
  {
    if |p| > 1 {
      var q := p[..|p| - 1];
      assert IsPath(tree, bag, q) by {
        forall i | 0 <= i < |q| - 1 ensures q[i] in tree && q[i + 1] in tree[q[i]].parents {
          assert q[i] == p[i] && q[i + 1] == p[i + 1];
        }
      }
      ClosedHasPaths(tree, bag, s, q);
      assert p[|p| - 2] in tree && p[|p| - 1] in tree[p[|p| - 2]].parents;
    }
  }

  /** Started from the empty set, the search returns exactly the bags that can eventually
      contain `bag`. */
  method SearchFromEmpty(bag: Bag, tree: Tree) returns (result: set<string>)
    ensures forall n :: n in result <==> Reachable(tree, bag, n)
  {
    result := SearchParents(bag, tree, {});
    forall n | Reachable(tree, bag, n) ensures n in result {
      var p :| IsPath(tree, bag, p) && p[|p| - 1] == n;
      ClosedHasPaths(tree, bag, result, p);
    }
  }

  /** A ranking of some bags of the tree, closed under containment, under which every
      contained bag ranks lower: no containment cycle is reachable from a ranked bag. Bags
      the ranked ones cannot reach need no rank, whatever cycles they form. */
  predicate Ranked(tree: Tree, rank: map<string, nat>)
  {
    forall k | k in tree && k in rank :: Below(tree, tree[k].children, rank, rank[k])
  }

  /** Every child of the tree ranks below `level`. */
  predicate Below(tree: Tree, children: seq<(string, nat)>, rank: map<string, nat>, level: nat)
  {
    forall i | 0 <= i < |children| :: children[i].0 in tree ==> children[i].0 in rank && rank[children[i].0] < level
  }

  /** The bags held by `children`: each child counts itself times one plus what it holds;
      a child missing from the tree holds nothing. */
  function CountContained(children: seq<(string, nat)>, tree: Tree, ghost rank: map<string, nat>, ghost level: nat): nat
    requires Ranked(tree, rank) && Below(tree, children, rank, level)
    decreases level, |children|
  {
    if children == [] then 0
    else
      var (child, count) := children[0];
      var inner := if child in tree then CountContained(tree[child].children, tree, rank, rank[child]) else 0;
      count * (1 + inner) + CountContained(children[1..], tree, rank, level)
  }

  /** `get_children_count` of a bag of the tree. */
  function GetChildrenCount(name: string, tree: Tree, ghost rank: map<string, nat>): nat
    requires Ranked(tree, rank) && name in tree && name in rank
  {
    CountContained(tree[name].children, tree, rank, rank[name])
  }

  /** The count does not depend on the ranking that shows the graph acyclic. */
  lemma {:induction false} CountRankIrrelevant(children: seq<(string, nat)>, tree: Tree,
                                               rank1: map<string, nat>, level1: nat,
                                               rank2: map<string, nat>, level2: nat)
    requires Ranked(tree, rank1) && Below(tree, children, rank1, level1)
    requires Ranked(tree, rank2) && Below(tree, children, rank2, level2)
    ensures CountContained(children, tree, rank1, level1) == CountContained(children, tree, rank2, level2)
    decreases level1, |children|
  {
    if children != [] {
      var child := children[0].0;
      if child in tree {
        CountRankIrrelevant(tree[child].children, tree, rank1, rank1[child], rank2, rank2[child]);
      }
      CountRankIrrelevant(children[1..], tree, rank1, level1, rank2, level2);
    }
  }

  /** The count over two runs of children is the sum of their counts. */
  lemma {:induction false} CountAppend(a: seq<(string, nat)>, b: seq<(string, nat)>, tree: Tree,
                                       rank: map<string, nat>, level: nat)
    requires Ranked(tree, rank) && Below(tree, a + b, rank, level)
    ensures Below(tree, a, rank, level) && Below(tree, b, rank, level)
    ensures CountContained(a + b, tree, rank, level)
            == CountContained(a, tree, rank, level) + CountContained(b, tree, rank, level)
    decreases |a|
  {
    assert forall i | 0 <= i < |a| :: a[i] == (a + b)[i];
    assert forall i | 0 <= i < |b| :: b[i] == (a + b)[|a| + i];
    if a == [] {
      assert a + b == b;
    } else {
      assert (a + b)[0] == a[0];
      assert (a + b)[1..] == a[1..] + b;
      CountAppend(a[1..], b, tree, rank, level);
    }
  }

  /** The direct counts of the children. */
  function SumCounts(children: seq<(string, nat)>): nat
  {
    if children == [] then 0 else children[0].1 + SumCounts(children[1..])
  }

  /** Every child contributes at least its own count, and exactly that when no child is a
      bag of the tree. */
  lemma {:induction false} CountAtLeastDirect(children: seq<(string, nat)>, tree: Tree, rank: map<string, nat>, level: nat)
    requires Ranked(tree, rank) && Below(tree, children, rank, level)
    ensures CountContained(children, tree, rank, level) >= SumCounts(children)
    ensures (forall i | 0 <= i < |children| :: children[i].0 !in tree)
            ==> CountContained(children, tree, rank, level) == SumCounts(children)
    decreases |children|
  {
    if children != [] {
      CountAtLeastDirect(children[1..], tree, rank, level);
    }
  }

  /** The first answer of `run_day_seven`: the number of bags that can eventually contain
      "shiny gold", 0 when it is not a bag of the tree. The search ends on any tree. */
  method ShinyGoldContainers(tree: Tree) returns (containers: nat)
    ensures "shiny gold" !in tree ==> containers == 0
    ensures "shiny gold" in tree ==>
              exists s: set<string> :: |s| == containers && forall n :: n in s <==> Reachable(tree, tree["shiny gold"], n)
  {
    var result: set<string> := {};
    if "shiny gold" in tree {
      result := SearchFromEmpty(tree["shiny gold"], tree);
    }
    containers := |result|;
  }

  /** The two answers of `run_day_seven` for "shiny gold": the number of bags that can
      eventually contain it and the number of bags it holds; both are 0 when it is not a
      bag of the tree. The count needs no containment cycle reachable from "shiny gold". */
  method ShinyGoldAnswers(tree: Tree, ghost rank: map<string, nat>) returns (containers: nat, contained: nat)
    requires Ranked(tree, rank) && ("shiny gold" in tree ==> "shiny gold" in rank)
    ensures "shiny gold" !in tree ==> containers == 0 && contained == 0
    ensures "shiny gold" in tree ==>
              contained == GetChildrenCount("shiny gold", tree, rank)
              && exists s: set<string> :: |s| == containers && forall n :: n in s <==> Reachable(tree, tree["shiny gold"], n)
  {
    containers := ShinyGoldContainers(tree);
    contained := 0;
    if "shiny gold" in tree {
      contained := GetChildrenCount("shiny gold", tree, rank);
    }
  }

  /** A bag of the tree held by a ranked bag is ranked, and lower. */
  lemma RankedChild(tree: Tree, rank: map<string, nat>, parent: string, child: string, n: nat)
    requires Ranked(tree, rank) && parent in tree && parent in rank && child in tree
    requires (child, n) in tree[parent].children
    ensures child in rank && rank[child] < rank[parent]
  {
    var i :| 0 <= i < |tree[parent].children| && tree[parent].children[i] == (child, n);
    assert Below(tree, tree[parent].children, rank, rank[parent]);
  }

  /** A containment cycle reachable from a ranked bag admits no ranking, so the rank asks
      for exactly the trees on which `get_children_count` ends: here `a` holds `b` and `b`
      holds `a`. */
  lemma CycleUnranked(tree: Tree, rank: map<string, nat>, a: string, b: string)
    requires a in tree && b in tree && a in rank
    requires (b, 1) in tree[a].children && (a, 1) in tree[b].children
    ensures !Ranked(tree, rank)
  {
    if Ranked(tree, rank) {
      RankedChild(tree, rank, a, b, 1);
      RankedChild(tree, rank, b, a, 1);
      assert false;
    }
  }

  /** A cycle that "shiny gold" cannot reach is no obstacle: "shiny gold" holding nothing
      besides `a` holding `b` and `b` holding `a` gives the answers 0 and 0. */
  lemma UnreachableCycleCounts(tree: Tree)
    requires tree == map["shiny gold" := Bag(map[], []), "a" := Bag(map["b" := 1], [("b", 1)]),
                         "b" := Bag(map["a" := 1], [("a", 1)])]
    ensures Ranked(tree, map["shiny gold" := 0])
    ensures GetChildrenCount("shiny gold", tree, map["shiny gold" := 0]) == 0
  {
  }

  /** `take_while(|w| w != stop)` on a word iterator: the words before the first `stop`,
      and what is left after that `stop` (which `take_while` consumes). */
  function TakeUntil(words: seq<string>, stop: string): (r: (seq<string>, seq<string>))
    ensures |r.1| < |words| || (r.1 == [] && words == [])
    ensures forall i | 0 <= i < |r.0| :: r.0[i] != stop
    ensures r.0 + (if |r.0| < |words| then [stop] else []) + r.1 == words
  {
    if words == [] then ([], [])
    else if words[0] == stop then ([], words[1..])
    else
      var (taken, rest) := TakeUntil(words[1..], stop);
      assert [words[0]] + words[1..] == words;
      ([words[0]] + taken, rest)
  }

  /** `take_while(|w| !w.starts_with(prefix))`: the words before the first one starting
      with `prefix`, and what is left after it. */
  function TakeUntilPrefix(words: seq<string>, prefix: string): (r: (seq<string>, seq<string>))
    ensures |r.1| < |words| || (r.1 == [] && words == [])
    ensures forall i | 0 <= i < |r.0| :: !StartsWith(r.0[i], prefix)
    ensures |r.0| < |words| ==> StartsWith(words[|r.0|], prefix) && r.0 + [words[|r.0|]] + r.1 == words
    ensures |r.0| == |words| ==> r.0 == words && r.1 == []
  {
    if words == [] then ([], [])
    else if StartsWith(words[0], prefix) then ([], words[1..])
    else
      var (taken, rest) := TakeUntilPrefix(words[1..], prefix);
      assert [words[0]] + words[1..] == words;
      ([words[0]] + taken, rest)
  }

  /** `find(|w| w != "no")`: consumes words up to and including the first one that is not
      "no". */
  function SkipNo(words: seq<string>): (rest: seq<string>)
    ensures |rest| <= |words|
  {
    if words == [] then [] else if words[0] != "no" then words[1..] else SkipNo(words[1..])
  }

  /** The batching closure over the child words: a count (u16) and the name words up to
      the word starting with "bag"; the first word that is not a count ends the list. */
  function ParseChildren(words: seq<string>): seq<(string, nat)>
    decreases |words|
  {
    if words == [] then []
    else match ParseUnsigned(words[0], U16_BOUND)
      case None => []
      case Some(count) =>
        var (nameWords, rest) := TakeUntilPrefix(words[1..], "bag");
        [(Join(nameWords, " "), count)] + ParseChildren(rest)
  }

  /** One rule line split into words: the parent's name (the words before "bags") and its
      children. */
  function ParseRuleWords(words: seq<string>): (r: (string, seq<(string, nat)>))
  {
    var (nameWords, rest) := TakeUntil(words, "bags");
    (Join(nameWords, " "), ParseChildren(SkipNo(rest)))
  }

  function ParseRule(line: string): (string, seq<(string, nat)>)
  {
    ParseRuleWords(SplitOn(line, {' '}))
  }

  /** The names among `children`. */
  function ChildNames(children: seq<(string, nat)>): set<string>
  {
    set i | 0 <= i < |children| :: children[i].0
  }

  lemma ChildNamesStep(children: seq<(string, nat)>, i: nat)
    requires i < |children|
    ensures ChildNames(children[..i + 1]) == ChildNames(children[..i]) + {children[i].0}
  {
    assert forall j | 0 <= j < i :: children[..i + 1][j] == children[..i][j];
    assert children[..i + 1][i] == children[i];
  }

  /** The count of the last entry for `c` among `children`. */
  function LastCount(children: seq<(string, nat)>, c: string): (r: Option<nat>)
    ensures r.None? <==> c !in ChildNames(children)
    ensures r.Some? ==> exists i | 0 <= i < |children| :: children[i] == (c, r.value)
                                   && forall j | i < j < |children| :: children[j].0 != c
  {
    if children == [] then None
    else
      var init := children[..|children| - 1];
      ChildNamesStep(children, |children| - 1);
      assert children[..|children|] == children;
      if children[|children| - 1].0 == c then Some(children[|children| - 1].1)
      else LastCount(init, c)
  }

  function OldParents(bags: Tree, k: string): map<string, nat>
  {
    if k in bags then bags[k].parents else map[]
  }

  function OldChildren(bags: Tree, k: string): seq<(string, nat)>
  {
    if k in bags then bags[k].children else []
  }

  /** The parents a bag has after the rule of `name` with these children: `name` with the
      count of its last entry for the bag, when there is one. */
  function ParentsAfter(bags: Tree, k: string, name: string, children: seq<(string, nat)>): map<string, nat>
  {
    match LastCount(children, k)
    case None => OldParents(bags, k)
    case Some(n) => OldParents(bags, k)[name := n]
  }

  /** `name` becomes a parent of `child` with `count`; a new child bag has no children. */
  function AddParent(bags: Tree, name: string, child: string, count: nat): Tree
  {
    if child in bags then bags[child := Bag(bags[child].parents[name := count], bags[child].children)]
    else bags[child := Bag(map[name := count], [])]
  }

  /** The children processed in order by `for_each`. */
  function AddParents(bags: Tree, name: string, children: seq<(string, nat)>): Tree
  {
    if children == [] then bags
    else
      var last := children[|children| - 1];
      AddParent(AddParents(bags, name, children[..|children| - 1]), name, last.0, last.1)
  }

  /** After the children are processed, the bags are the old ones and the children; a
      bag's parents are as `ParentsAfter` says, and its children did not change. */
  lemma {:induction false} AddParentsAt(bags: Tree, name: string, children: seq<(string, nat)>, k: string)
    ensures var r := AddParents(bags, name, children);
            (k in r <==> k in bags || k in ChildNames(children))
            && (k in r ==> r[k].parents == ParentsAfter(bags, k, name, children)
                           && r[k].children == OldChildren(bags, k))
  {
    if children != [] {
      var n := |children| - 1;
      AddParentsAt(bags, name, children[..n], k);
      ChildNamesStep(children, n);
      assert children[..n + 1] == children;
    }
  }

  /** `name` gets `children`, and is created with no parents when it is new. */
  function SetChildren(bags: Tree, name: string, children: seq<(string, nat)>): Tree
  {
    if name in bags then bags[name := Bag(bags[name].parents, children)]
    else bags[name := Bag(map[], children)]
  }

  /** What one rule line does to a bag of the map. */
  lemma RuleStateAt(bags: Tree, name: string, children: seq<(string, nat)>, k: string)
    ensures var r := SetChildren(AddParents(bags, name, children), name, children);
            (k in r <==> k in bags || k in ChildNames(children) || k == name)
            && (k in r ==> r[k].parents == ParentsAfter(bags, k, name, children)
                           && r[k].children == if k == name then children else OldChildren(bags, k))
  {
    AddParentsAt(bags, name, children, k);
  }

  /** The update of the bags map for one rule line: each child in turn gets `name` with its
      count among its parents, and then the parent's children are set, the parent being
      created when it is new. */
  method ApplyRule(bags: Tree, name: string, children: seq<(string, nat)>) returns (r: Tree)
    ensures r == SetChildren(AddParents(bags, name, children), name, children)
    ensures r.Keys == bags.Keys + ChildNames(children) + {name}
    ensures forall k | k in r :: r[k].parents == ParentsAfter(bags, k, name, children)
    ensures r[name].children == children
    ensures forall k | k in r && k != name :: r[k].children == OldChildren(bags, k)
  {
    r := bags;
    var i := 0;
    while i < |children|
      invariant i <= |children|
      invariant r == AddParents(bags, name, children[..i])
    {
      var (bagName, count) := children[i];
      assert children[..i + 1][..i] == children[..i];
      if bagName in r {
        r := r[bagName := Bag(r[bagName].parents[name := count], r[bagName].children)];
      } else {
        r := r[bagName := Bag(map[name := count], [])];
      }
      i := i + 1;
    }
    assert children[..i] == children;
    if name in r {
      r := r[name := Bag(r[name].parents, children)];
    } else {
      r := r[name := Bag(map[], children)];
    }
    forall k {
      RuleStateAt(bags, name, children, k);
    }
  }

  type Rule = (string, seq<(string, nat)>)

  /** Every name the rules mention, as parent or as child. */
  function Named(rules: seq<Rule>): set<string>
  {
    if rules == [] then {}
    else Named(rules[..|rules| - 1]) + ChildNames(rules[|rules| - 1].1) + {rules[|rules| - 1].0}
  }

  predicate MentionedAt(rules: seq<Rule>, i: nat, k: string)
    requires i < |rules|
  {
    k == rules[i].0 || k in ChildNames(rules[i].1)
  }

  lemma {:induction false} NamedMember(rules: seq<Rule>, k: string)
    ensures k in Named(rules) <==> exists i | 0 <= i < |rules| :: MentionedAt(rules, i, k)
  {
    if rules != [] {
      var n := |rules| - 1;
      var init := rules[..n];
      NamedMember(init, k);
      assert Named(rules) == Named(init) + ChildNames(rules[n].1) + {rules[n].0};
      forall i | 0 <= i < n ensures MentionedAt(init, i, k) == MentionedAt(rules, i, k) {
        assert init[i] == rules[i];
      }
      if exists i | 0 <= i < |rules| :: MentionedAt(rules, i, k) {
        var i :| 0 <= i < |rules| && MentionedAt(rules, i, k);
        if i < n {
          assert MentionedAt(init, i, k);
        }
      }
      if k in Named(init) {
        var i :| 0 <= i < |init| && MentionedAt(init, i, k);
        assert MentionedAt(rules, i, k);
      } else if k in Named(rules) {
        assert MentionedAt(rules, n, k);
      }
    }
  }

  function ParseRules(lines: seq<string>): (rules: seq<Rule>)
    ensures |rules| == |lines| && forall i | 0 <= i < |lines| :: rules[i] == ParseRule(lines[i])
  {
    seq(|lines|, i requires 0 <= i < |lines| => ParseRule(lines[i]))
  }

  /** The bags map after the rules, one rule line after the other, from the empty map. */
  function ApplyRules(rules: seq<Rule>): Tree
  {
    if rules == [] then map[]
    else
      var last := rules[|rules| - 1];
      SetChildren(AddParents(ApplyRules(rules[..|rules| - 1]), last.0, last.1), last.0, last.1)
  }

  /** The children of the last rule for `k`, or none when no rule is for `k`. */
  function LastChildren(rules: seq<Rule>, k: string): (r: seq<(string, nat)>)
    ensures (forall i | 0 <= i < |rules| :: rules[i].0 != k) ==> r == []
    ensures (exists i | 0 <= i < |rules| :: rules[i].0 == k) ==>
              exists i | 0 <= i < |rules| :: rules[i].0 == k && r == rules[i].1
                                             && forall j | i < j < |rules| :: rules[j].0 != k
  {
    if rules == [] then []
    else
      var n := |rules| - 1;
      var init := rules[..n];
      assert forall i | 0 <= i < n :: init[i] == rules[i];
      if rules[n].0 == k then rules[n].1
      else
        var r := LastChildren(init, k);
        assert (exists i | 0 <= i < |rules| :: rules[i].0 == k) ==>
                 exists i | 0 <= i < n :: init[i].0 == k;
        r
  }

  /** The parents of `k` the rules record: each rule that lists `k` among its children makes
      its bag a parent of `k`, with the count of its last entry for `k`. */
  function ParentsOf(rules: seq<Rule>, k: string): map<string, nat>
  {
    if rules == [] then map[]
    else
      var last := rules[|rules| - 1];
      var init := ParentsOf(rules[..|rules| - 1], k);
      match LastCount(last.1, k)
      case None => init
      case Some(n) => init[last.0 := n]
  }

  /** The rule `i` is for bag `p` and lists `k` among its children. */
  predicate Lists(rules: seq<Rule>, i: nat, p: string, k: string)
    requires i < |rules|
  {
    rules[i].0 == p && k in ChildNames(rules[i].1)
  }

  /** `p` is a parent of `k` exactly when some rule for `p` lists `k`, and the count is the
      one of the last such rule, taken from its last entry for `k`. */
  lemma {:induction false} ParentsOfMembers(rules: seq<Rule>, k: string, p: string)
    ensures p in ParentsOf(rules, k) <==> exists i | 0 <= i < |rules| :: Lists(rules, i, p, k)
    ensures p in ParentsOf(rules, k) ==>
              exists i | 0 <= i < |rules| :: Lists(rules, i, p, k)
                                             && LastCount(rules[i].1, k) == Some(ParentsOf(rules, k)[p])
                                             && forall j | i < j < |rules| :: !Lists(rules, j, p, k)
  {
    if rules != [] {
      var n := |rules| - 1;
      var init := rules[..n];
      ParentsOfMembers(init, k, p);
      forall i | 0 <= i < n ensures Lists(init, i, p, k) == Lists(rules, i, p, k) {
        assert init[i] == rules[i];
      }
      if Lists(rules, n, p, k) {
        assert ParentsOf(rules, k)[p] == LastCount(rules[n].1, k).value;
      } else if exists i | 0 <= i < |rules| :: Lists(rules, i, p, k) {
        var i :| 0 <= i < |rules| && Lists(rules, i, p, k);
        assert Lists(init, i, p, k);
      }
    }
  }

  /** Every bag's parents and children in the map the rules build: the parents the rules
      record for it, and the children of its last rule. */
  lemma {:induction false} ApplyRulesAt(rules: seq<Rule>, k: string)
    ensures k in ApplyRules(rules) <==> k in Named(rules)
    ensures OldParents(ApplyRules(rules), k) == ParentsOf(rules, k)
    ensures OldChildren(ApplyRules(rules), k) == LastChildren(rules, k)
  {
    if rules != [] {
      var n := |rules| - 1;
      var init := rules[..n];
      ApplyRulesAt(init, k);
      RuleStateAt(ApplyRules(init), rules[n].0, rules[n].1, k);
      assert Named(rules) == Named(init) + ChildNames(rules[n].1) + {rules[n].0};
    }
  }

  /** The map the rules build holds exactly the bags some rule mentions, each with the
      parents the rules record for it and the children of its last rule. */
  lemma ApplyRulesMeaning(rules: seq<Rule>)
    ensures forall k :: k in ApplyRules(rules) <==> exists i | 0 <= i < |rules| :: MentionedAt(rules, i, k)
    ensures forall k | k in ApplyRules(rules) :: ApplyRules(rules)[k].parents == ParentsOf(rules, k)
                                                && ApplyRules(rules)[k].children == LastChildren(rules, k)
  {
    forall k
      ensures (k in ApplyRules(rules) <==> exists i | 0 <= i < |rules| :: MentionedAt(rules, i, k))
      ensures k in ApplyRules(rules) ==> ApplyRules(rules)[k].parents == ParentsOf(rules, k)
                                         && ApplyRules(rules)[k].children == LastChildren(rules, k)
    {
      NamedMember(rules, k);
      ApplyRulesAt(rules, k);
    }
  }

  /** The parse loop of `run_day_seven`: every rule line applied in order. A bag is in the
      map exactly when some line mentions it; its parents are the bags whose lines list it
      (with the count of the last such line), its children those of the last line for it. */
  method BuildTree(lines: seq<string>) returns (bags: Tree)
    ensures bags == ApplyRules(ParseRules(lines))
    ensures forall k :: k in bags <==> exists i | 0 <= i < |lines| :: MentionedAt(ParseRules(lines), i, k)
    ensures forall k | k in bags :: bags[k].parents == ParentsOf(ParseRules(lines), k)
                                    && bags[k].children == LastChildren(ParseRules(lines), k)
  {
    ghost var rules := ParseRules(lines);
    bags := map[];
    var i := 0;
    while i < |lines|
      invariant i <= |lines|
      invariant bags == ApplyRules(rules[..i])
    {
      var (name, children) := ParseRule(lines[i]);
      bags := ApplyRuleLine(bags, rules, i, name, children);
      i := i + 1;
    }
    assert rules[..i] == rules;
    ApplyRulesMeaning(rules);
  }

  /** One pass of the parse loop: the rule of line `i` applied to the map of the earlier lines. */
  method ApplyRuleLine(bags: Tree, ghost rules: seq<Rule>, i: nat, name: string, children: seq<(string, nat)>)
    returns (r: Tree)
    requires i < |rules| && rules[i] == (name, children) && bags == ApplyRules(rules[..i])
    ensures r == ApplyRules(rules[..i + 1])
  {
    assert rules[..i + 1][..i] == rules[..i];
    r := ApplyRule(bags, name, children);
  }

  lemma ParseCounts()
    ensures ParseUnsigned("1", U16_BOUND) == Some(1) && ParseUnsigned("2", U16_BOUND) == Some(2)
    ensures ParseUnsigned("no", U16_BOUND) == None
  {
    assert "1"[..0] == [] && "2"[..0] == [];
    assert !IsDigit('n');
  }

  lemma JoinTwo(a: string, b: string)
    ensures Join([a, b], " ") == a + " " + b
  {
    assert [a, b][1..] == [b];
  }

  lemma {:induction false} TakeUntilFound(a: seq<string>, stop: string, rest: seq<string>)
    requires forall i | 0 <= i < |a| :: a[i] != stop
    ensures TakeUntil(a + [stop] + rest, stop) == (a, rest)
  {
    if a == [] {
      assert a + [stop] + rest == [stop] + rest;
    } else {
      assert (a + [stop] + rest)[1..] == a[1..] + [stop] + rest;
      TakeUntilFound(a[1..], stop, rest);
      assert [a[0]] + a[1..] == a;
    }
  }

  lemma {:induction false} TakeUntilPrefixFound(a: seq<string>, prefix: string, w: string, rest: seq<string>)
    requires forall i | 0 <= i < |a| :: !StartsWith(a[i], prefix)
    requires StartsWith(w, prefix)
    ensures TakeUntilPrefix(a + [w] + rest, prefix) == (a, rest)
  {
    if a == [] {
      assert a + [w] + rest == [w] + rest;
    } else {
      assert (a + [w] + rest)[1..] == a[1..] + [w] + rest;
      TakeUntilPrefixFound(a[1..], prefix, w, rest);
      assert [a[0]] + a[1..] == a;
    }
  }

  /** One child entry: a count, two name words and the word starting with "bag". */
  lemma ParseChildStep(count: string, n: nat, w1: string, w2: string, bagWord: string, rest: seq<string>)
    requires ParseUnsigned(count, U16_BOUND) == Some(n)
    requires !StartsWith(w1, "bag") && !StartsWith(w2, "bag") && StartsWith(bagWord, "bag")
    ensures ParseChildren([count, w1, w2, bagWord] + rest) == [(w1 + " " + w2, n)] + ParseChildren(rest)
  {
    var ws := [count, w1, w2, bagWord] + rest;
    assert ws[1..] == [w1, w2] + [bagWord] + rest;
    TakeUntilPrefixFound([w1, w2], "bag", bagWord, rest);
    JoinTwo(w1, w2);
  }

  /** A rule line of the form "<a> <b> bags contain" followed by the child words. */
  lemma ParseRuleStep(a: string, b: string, childWords: seq<string>)
    requires a != "bags" && b != "bags" && childWords != [] && childWords[0] != "no"
    ensures ParseRuleWords([a, b, "bags", "contain"] + childWords) == (a + " " + b, ParseChildren(childWords))
  {
    var words := [a, b, "bags", "contain"] + childWords;
    assert words == [a, b] + ["bags"] + (["contain"] + childWords);
    TakeUntilFound([a, b], "bags", ["contain"] + childWords);
    assert (["contain"] + childWords)[1..] == childWords;
    JoinTwo(a, b);
  }

  lemma ExampleNames()
    ensures "muted" + " " + "yellow" == "muted yellow" && "bright" + " " + "white" == "bright white"
    ensures "light" + " " + "red" == "light red" && "faded" + " " + "blue" == "faded blue"
  {
  }

  /** A rule with two children: "light red bags contain 1 bright white bag, 2 muted
      yellow bags." */
  lemma ParseExampleTwoChildren(words: seq<string>)
    requires words == ["light", "red", "bags", "contain", "1", "bright", "white", "bag,", "2",
                       "muted", "yellow", "bags."]
    ensures ParseRuleWords(words) == ("light red", [("bright white", 1), ("muted yellow", 2)])
  {
    var second := ["2", "muted", "yellow", "bags."];
    var first := ["1", "bright", "white", "bag,"] + second;
    assert words == ["light", "red", "bags", "contain"] + first;
    ParseCounts();
    assert "bright"[..3] != "bag" by { assert "bright"[..3][1] == 'r'; }
    assert "white"[..3] != "bag" by { assert "white"[..3][0] == 'w'; }
    assert "muted"[..3] != "bag" by { assert "muted"[..3][0] == 'm'; }
    assert "yellow"[..3] != "bag" by { assert "yellow"[..3][0] == 'y'; }
    assert "bag,"[..3] == "bag" && "bags."[..3] == "bag";
    assert ParseChildren(second) == [("muted yellow", 2)] by {
      ParseChildStep("2", 2, "muted", "yellow", "bags.", []);
      assert ["2", "muted", "yellow", "bags."] + [] == second;
      assert ParseChildren([]) == [];
      ExampleNames();
    }
    assert ParseChildren(first) == [("bright white", 1), ("muted yellow", 2)] by {
      ParseChildStep("1", 1, "bright", "white", "bag,", second);
      ExampleNames();
    }
    assert ParseRuleWords(words) == ("light red", ParseChildren(first)) by {
      ParseRuleStep("light", "red", first);
      ExampleNames();
    }
  }

  /** A rule with no children: `find` consumes "contain", and "no" is not a count. */
  lemma ParseExampleNoChildren(words: seq<string>)
    requires words == ["faded", "blue", "bags", "contain", "no", "other", "bags."]
    ensures ParseRuleWords(words) == ("faded blue", [])
  {
    var rest := ["no", "other", "bags."];
    assert words == ["faded", "blue", "bags", "contain"] + rest;
    ParseCounts();
    assert ParseChildren(rest) == [];
    assert ParseRuleWords(words) == ("faded blue", ParseChildren(rest)) by {
      TakeUntilFound(["faded", "blue"], "bags", ["contain"] + rest);
      assert words == ["faded", "blue"] + ["bags"] + (["contain"] + rest);
      assert SkipNo(["contain"] + rest) == rest;
      JoinTwo("faded", "blue");
      ExampleNames();
    }
  }
}
