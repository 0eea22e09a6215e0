/** The checkpoint upgrader (cpt_upgrader.py): resolution of the dependencies
    between upgrade tags, and the loop that applies every missing upgrade once
    its dependencies are in the checkpoint's tag set. */
module Upgrader {
  import opened Wrappers

  type Tag = string

  /** Each upgrader's tag with the tags it depends on. */
  type Depends = map<Tag, set<Tag>>

  datatype Outcome =
    | Upgraded(tags: set<Tag>, log: seq<Tag>) // the new tag set and the order of application
    | Stuck(left: set<Tag>)                   // update dependences impossible to resolve

  /** Upgrader.ready */
  predicate Ready(tag: Tag, depends: Depends, tags: set<Tag>)
    requires tag in depends
  {
    depends[tag] <= tags
  }

  /** The upgrades a checkpoint with these tags is missing. */
  function Missing(depends: Depends, tags: set<Tag>): set<Tag> {
    depends.Keys - tags
  }

  // ----- what a correct order is

  function Elements(order: seq<Tag>): set<Tag> {
    set t | t in order
  }

  ghost predicate NoRepeats(order: seq<Tag>) {
    forall i, j :: 0 <= i < j < |order| ==> order[i] != order[j]
  }

  /** order applies missing upgrades, each once, and each with its dependencies
      already in the tag set. */
  ghost predicate Sequential(order: seq<Tag>, depends: Depends, tags: set<Tag>) {
    && NoRepeats(order)
    && (forall i :: 0 <= i < |order| ==> order[i] in Missing(depends, tags))
    && (forall i :: 0 <= i < |order| ==> Ready(order[i], depends, tags + Elements(order[..i])))
  }

  ghost predicate Complete(order: seq<Tag>, depends: Depends, tags: set<Tag>) {
    Sequential(order, depends, tags) && Elements(order) == Missing(depends, tags)
  }

  /** Each tag of left waits for another one of left, or for a tag that is
      neither present nor going to be. */
  ghost predicate Blocked(left: set<Tag>, depends: Depends, tags: set<Tag>) {
    && left <= Missing(depends, tags)
    && forall t :: t in left ==> Waits(t, left, depends, tags)
  }

  ghost predicate Waits(t: Tag, left: set<Tag>, depends: Depends, tags: set<Tag>)
    requires t in depends
  {
    !(depends[t] <= (tags + depends.Keys) - left)
  }

  lemma ElementsStep(order: seq<Tag>, n: nat)
    requires n < |order|
    ensures Elements(order[..n + 1]) == Elements(order[..n]) + {order[n]}
  {
    assert order[..n + 1] == order[..n] + [order[n]];
  }

  /** No order ever reaches a blocked tag. */
  lemma {:induction false} BlockedNeverApplied(left: set<Tag>, depends: Depends, tags: set<Tag>, order: seq<Tag>, n: nat)
    requires Blocked(left, depends, tags) && Sequential(order, depends, tags) && n <= |order|
    ensures Elements(order[..n]) !! left
    ensures Elements(order[..n]) <= depends.Keys
  {
    hide NoRepeats;
    if n > 0 {
      BlockedNeverApplied(left, depends, tags, order, n - 1);
      ElementsStep(order, n - 1);
      var t, done := order[n - 1], Elements(order[..n - 1]);
      assert Ready(t, depends, tags + done);
      assert tags + done <= (tags + depends.Keys) - left;
      assert t in left ==> Waits(t, left, depends, tags);
    }
  }

  lemma BlockedNotInOrder(left: set<Tag>, depends: Depends, tags: set<Tag>, order: seq<Tag>)
    requires Blocked(left, depends, tags) && Sequential(order, depends, tags)
    ensures Elements(order) !! left
  {
    BlockedNeverApplied(left, depends, tags, order, |order|);
    assert order[..|order|] == order;
  }

  // ----- the loop

  /** What the loop has established about the tag set, the log and what is left. */
  ghost predicate Progress(cur: set<Tag>, log: seq<Tag>, toApply: set<Tag>, depends: Depends, tags: set<Tag>) {
    && Sequential(log, depends, tags)
    && cur == tags + Elements(log)
    && toApply == Missing(depends, tags) - Elements(log)
  }

  lemma ApplyOne(log: seq<Tag>, t: Tag, depends: Depends, tags: set<Tag>, was: set<Tag>)
    requires Sequential(log, depends, tags)
    requires t in Missing(depends, tags) && t !in log
    requires Ready(t, depends, was) && was <= tags + Elements(log)
    ensures Sequential(log + [t], depends, tags)
    ensures Elements(log + [t]) == Elements(log) + {t}
  {
    var log' := log + [t];
    forall i | 0 <= i < |log'| ensures Ready(log'[i], depends, tags + Elements(log'[..i])) {
      assert log'[..i] == log[..i];
      if i == |log| { assert log[..i] == log; }
    }
  }

  /** One round: every tag that was ready when the round began is applied, in an
      arbitrary order. */
  method ApplyBatch(ready: set<Tag>, depends: Depends, ghost tags: set<Tag>, cur: set<Tag>, log: seq<Tag>)
    returns (cur': set<Tag>, log': seq<Tag>)
    requires ready <= Missing(depends, tags) - Elements(log)
    requires Progress(cur, log, Missing(depends, tags) - Elements(log), depends, tags)
    requires forall t :: t in ready ==> Ready(t, depends, cur)
    ensures Progress(cur', log', Missing(depends, tags) - Elements(log) - ready, depends, tags)
  {
    hide Sequential, Ready;
    cur', log' := cur, log;
    var batch := ready;
    while batch != {}
      invariant batch <= ready && cur <= cur'
      invariant Elements(log') == Elements(log) + (ready - batch)
      invariant Sequential(log', depends, tags) && cur' == tags + Elements(log')
    {
      var t :| t in batch;
      assert t !in Elements(log');
      ApplyOne(log', t, depends, tags, cur);
      cur', log' := cur' + {t}, log' + [t];
      batch := batch - {t};
    }
  }

  /** What the loop promises, whatever order each batch is visited in. */
  ghost predicate Correct(r: Outcome, depends: Depends, tags: set<Tag>) {
    match r
    case Upgraded(cur, log) => cur == tags + depends.Keys && Complete(log, depends, tags)
    case Stuck(left) =>
      && left != {} && Blocked(left, depends, tags)
      && exists log :: Sequential(log, depends, tags) && Elements(log) == Missing(depends, tags) - left
  }

  /** The to_apply loop of process_file. */
  method Process(depends: Depends, tags: set<Tag>) returns (r: Outcome)
    ensures Correct(r, depends, tags)
  {
    hide Sequential;
    var cur, log, toApply := tags, [], Missing(depends, tags);
    EmptyOrder(depends, tags);
    while toApply != {}
      invariant Progress(cur, log, toApply, depends, tags)
      decreases |toApply|
    {
      var ready := set t | t in toApply && Ready(t, depends, cur);
      if ready == {} {
        NothingReady(toApply, depends, tags, cur, log);
        return Stuck(toApply);
      }
      cur, log := ApplyBatch(ready, depends, tags, cur, log);
      Shrinks(toApply, ready);
      toApply := toApply - ready;
    }
    r := Upgraded(cur, log);
    AllApplied(log, depends, tags);
  }

  lemma EmptyOrder(depends: Depends, tags: set<Tag>)
    ensures Sequential([], depends, tags) && Elements([]) == {}
  {}

  lemma Shrinks(s: set<Tag>, t: set<Tag>)
    requires t <= s && t != {}
    ensures |s - t| < |s|
  {
    assert s == (s - t) + t;
    assert |s| == |s - t| + |t|;
  }

  lemma NothingReady(toApply: set<Tag>, depends: Depends, tags: set<Tag>, cur: set<Tag>, log: seq<Tag>)
    requires toApply != {} && Progress(cur, log, toApply, depends, tags)
    requires forall t :: t in toApply ==> !Ready(t, depends, cur)
    ensures Correct(Stuck(toApply), depends, tags)
  {
    hide NoRepeats;
    OrderIsMissing(log, depends, tags);
    assert (tags + depends.Keys) - toApply == cur;
    assert Elements(log) == Missing(depends, tags) - toApply;
  }

  lemma OrderIsMissing(log: seq<Tag>, depends: Depends, tags: set<Tag>)
    requires Sequential(log, depends, tags)
    ensures Elements(log) <= Missing(depends, tags)
  {}

  lemma AllApplied(log: seq<Tag>, depends: Depends, tags: set<Tag>)
    requires Sequential(log, depends, tags) && Missing(depends, tags) - Elements(log) == {}
    ensures Complete(log, depends, tags) && tags + Elements(log) == tags + depends.Keys
  {
    OrderIsMissing(log, depends, tags);
    forall t | t in Missing(depends, tags) ensures t in Elements(log) {
      assert t !in Missing(depends, tags) - Elements(log);
    }
  }

  // ----- consequences

  /** The loop gives up exactly when no sequential order satisfies the
      dependencies. */
  lemma StuckIffNoOrder(r: Outcome, depends: Depends, tags: set<Tag>)
    requires Correct(r, depends, tags)
    ensures r.Upgraded? <==> exists order :: Complete(order, depends, tags)
  {
    if r.Stuck? {
      forall order ensures !Complete(order, depends, tags) {
        if Sequential(order, depends, tags) {
          BlockedNotInOrder(r.left, depends, tags, order);
        }
      }
    }
  }

  /** The tags reported as impossible are exactly those no order can ever apply. */
  lemma StuckIsExact(left: set<Tag>, depends: Depends, tags: set<Tag>, t: Tag)
    requires Correct(Stuck(left), depends, tags) && t in Missing(depends, tags)
    ensures t in left <==> forall order :: Sequential(order, depends, tags) ==> t !in order
  {
    var log :| Sequential(log, depends, tags) && Elements(log) == Missing(depends, tags) - left;
    if t in left {
      forall order | Sequential(order, depends, tags) ensures t !in order {
        BlockedNotInOrder(left, depends, tags, order);
        assert t !in Elements(order);
      }
    } else {
      assert t in Elements(log);
    }
  }

  /** Two runs agree on everything but the order within batches. */
  lemma Confluent(r: Outcome, r': Outcome, depends: Depends, tags: set<Tag>)
    requires Correct(r, depends, tags) && Correct(r', depends, tags)
    ensures r.Upgraded? == r'.Upgraded?
    ensures r.Upgraded? ==> r.tags == r'.tags && multiset(r.log) == multiset(r'.log)
    ensures r.Stuck? ==> r.left == r'.left
  {
    StuckIffNoOrder(r, depends, tags);
    StuckIffNoOrder(r', depends, tags);
    if r.Stuck? {
      forall t | t in Missing(depends, tags) ensures t in r.left <==> t in r'.left {
        StuckIsExact(r.left, depends, tags, t);
        StuckIsExact(r'.left, depends, tags, t);
      }
    } else {
      SameMultiset(r.log, r'.log);
    }
  }

  lemma {:induction false} OneEach(order: seq<Tag>, t: Tag)
    requires NoRepeats(order)
    ensures multiset(order)[t] == if t in order then 1 else 0
  {
    if order != [] {
      var n := |order| - 1;
      OneEach(order[..n], t);
      assert order == order[..n] + [order[n]];
    }
  }

  lemma SameMultiset(a: seq<Tag>, b: seq<Tag>)
    requires NoRepeats(a) && NoRepeats(b) && Elements(a) == Elements(b)
    ensures multiset(a) == multiset(b)
  {
    forall t ensures multiset(a)[t] == multiset(b)[t] {
      OneEach(a, t);
      OneEach(b, t);
      assert t in Elements(a) <==> t in Elements(b);
    }
  }

  // ----- cycles

  /** Every dependency names an upgrader: what load_all audits. */
  ghost predicate Closed(depends: Depends) {
    forall t :: t in depends ==> depends[t] <= depends.Keys
  }

  /** A walk along dependencies through missing upgrades. */
  ghost predicate Walk(w: seq<Tag>, depends: Depends, tags: set<Tag>) {
    && (forall i :: 0 <= i < |w| ==> w[i] in Missing(depends, tags))
    && (forall i :: 0 <= i < |w| - 1 ==> w[i + 1] in depends[w[i]])
  }

  ghost predicate Cycle(w: seq<Tag>, depends: Depends, tags: set<Tag>) {
    |w| >= 2 && w[0] == w[|w| - 1] && Walk(w, depends, tags)
  }

  lemma CycleBlocks(w: seq<Tag>, depends: Depends, tags: set<Tag>)
    requires Cycle(w, depends, tags)
    ensures Blocked(Elements(w), depends, tags) && Elements(w) != {}
  {
    assert w[0] in Elements(w);
    forall t | t in Elements(w) ensures Waits(t, Elements(w), depends, tags) {
      var i :| 0 <= i < |w| && w[i] == t;
      var j := if i == |w| - 1 then 0 else i;
      assert w[j + 1] in depends[w[j]] && w[j + 1] in Elements(w);
    }
  }

  lemma {:induction false} LongWalk(left: set<Tag>, depends: Depends, tags: set<Tag>, n: nat) returns (w: seq<Tag>)
    requires Closed(depends) && Blocked(left, depends, tags) && left != {}
    ensures |w| == n + 1 && Walk(w, depends, tags) && Elements(w) <= left
  {
    if n == 0 {
      var t :| t in left;
      w := [t];
    } else {
      w := LongWalk(left, depends, tags, n - 1);
      var t := w[n - 1];
      assert t in Elements(w);
      assert Waits(t, left, depends, tags);
      var d :| d in depends[t] && d !in (tags + depends.Keys) - left;
      assert d in left;
      w := w + [d];
    }
  }

  lemma {:induction false} SizeOfElements(w: seq<Tag>)
    requires NoRepeats(w)
    ensures |Elements(w)| == |w|
  {
    if w != [] {
      var n := |w| - 1;
      SizeOfElements(w[..n]);
      ElementsStep(w, n);
      assert w[..n + 1] == w;
      assert w[n] !in Elements(w[..n]);
    }
  }

  lemma SubsetSize(s: set<Tag>, t: set<Tag>)
    requires s <= t
    ensures |s| <= |t|
  {
    assert t == s + (t - s);
    assert |t| == |s| + |t - s|;
  }

  /** With audited dependencies, the loop gives up exactly when the missing
      upgrades depend on one another in a cycle. */
  lemma StuckIffCycle(r: Outcome, depends: Depends, tags: set<Tag>)
    requires Closed(depends) && Correct(r, depends, tags)
    ensures r.Stuck? <==> exists w :: Cycle(w, depends, tags)
  {
    if r.Stuck? {
      var w := LongWalk(r.left, depends, tags, |r.left|);
      SubsetSize(Elements(w), r.left);
      if NoRepeats(w) { SizeOfElements(w); }
      var i, j :| 0 <= i < j < |w| && w[i] == w[j];
      assert Cycle(w[i..j + 1], depends, tags);
    }
    if exists w :: Cycle(w, depends, tags) {
      var w :| Cycle(w, depends, tags);
      CycleBlocks(w, depends, tags);
      assert w[0] in Elements(w) && w[0] in Missing(depends, tags);
      if r.Upgraded? {
        BlockedNotInOrder(Elements(w), depends, tags, r.log);
      }
    }
  }

  // ----- forward dependencies

  ghost predicate AllExist(own: Depends, fwd: Depends, tags: set<Tag>)
    requires own.Keys == fwd.Keys
  {
    forall t :: t in tags && t in own ==> own[t] <= own.Keys && fwd[t] <= own.Keys
  }

  /** Dependencies once the forward dependencies of the upgraders in done have
      been turned around: one of u on t makes t depend on u. */
  function Reversed(own: Depends, fwd: Depends, done: set<Tag>): Depends {
    map t | t in own :: own[t] + Sources(fwd, done, t)
  }

  function Sources(fwd: Depends, done: set<Tag>, t: Tag): set<Tag> {
    set u | u in fwd && u in done && t in fwd[u]
  }

  /** Every tag of targets gets u as a dependency. */
  function AddTo(depends: Depends, u: Tag, targets: set<Tag>): Depends {
    map t | t in depends :: if t in targets then depends[t] + {u} else depends[t]
  }

  lemma ReverseOne(own: Depends, fwd: Depends, done: set<Tag>, u: Tag)
    requires u in fwd
    ensures Reversed(own, fwd, done + {u}) == AddTo(Reversed(own, fwd, done), u, fwd[u])
  {
    var l, r := Reversed(own, fwd, done + {u}), AddTo(Reversed(own, fwd, done), u, fwd[u]);
    forall t | t in own ensures l[t] == r[t] {
      assert Sources(fwd, done + {u}, t) == if t in fwd[u] then Sources(fwd, done, t) + {u} else Sources(fwd, done, t);
      assert own[t] + (Sources(fwd, done, t) + {u}) == own[t] + Sources(fwd, done, t) + {u};
    }
    assert l.Keys == r.Keys;
  }

  lemma ReverseNone(own: Depends, fwd: Depends, done: set<Tag>)
    requires done == {}
    ensures Reversed(own, fwd, done) == own
  {
    forall t | t in own ensures Reversed(own, fwd, done)[t] == own[t] {
      assert Sources(fwd, done, t) == {};
    }
    assert Reversed(own, fwd, done).Keys == own.Keys;
  }

  lemma ReversedBounds(own: Depends, fwd: Depends, done: set<Tag>)
    requires own.Keys == fwd.Keys
    ensures Reversed(own, fwd, done).Keys == own.Keys
    ensures forall t :: t in own ==> (Reversed(own, fwd, done)[t] <= own.Keys <==> own[t] <= own.Keys)
  {
    assert Reversed(own, fwd, done).Keys == own.Keys;
    forall t | t in own ensures Sources(fwd, done, t) <= own.Keys {}
  }

  /** The second half of load_all, in any order of the upgraders. It fails
      exactly when some named tag does not exist, and what it returns is closed. */
  method Resolve(own: Depends, fwd: Depends) returns (r: Option<Depends>)
    requires own.Keys == fwd.Keys
    ensures r.Some? <==> AllExist(own, fwd, own.Keys)
    ensures r.Some? ==> r.value == Reversed(own, fwd, own.Keys) && Closed(r.value)
  {
    hide Reversed, AddTo;
    var depends, todo := own, own.Keys;
    ReverseNone(own, fwd, own.Keys - todo);
    while todo != {}
      invariant todo <= own.Keys && depends == Reversed(own, fwd, own.Keys - todo)
      invariant AllExist(own, fwd, own.Keys - todo)
    {
      var u :| u in todo;
      ReversedBounds(own, fwd, own.Keys - todo);
      if !(fwd[u] <= depends.Keys) {
        return None;
      }
      ReverseOne(own, fwd, own.Keys - todo, u);
      assert own.Keys - todo + {u} == own.Keys - (todo - {u});
      depends := AddTo(depends, u, fwd[u]);
      ReversedBounds(own, fwd, own.Keys - (todo - {u}));
      if !(depends[u] <= depends.Keys) {
        return None;
      }
      todo := todo - {u};
    }
    assert own.Keys - todo == own.Keys;
    ReversedBounds(own, fwd, own.Keys);
    r := Some(depends);
  }
}
