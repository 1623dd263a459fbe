/** The shape of an anti-entropy pass, for any kind of entry: one node meets the others in turn,
    and each meeting replaces both entries by the result of a rule. What a pass achieves follows
    from what one meeting achieves. */
module Passes {
  import opened Clocks
  import opened Sequences

  type Row<T> = map<NodeId, T>
  type Rule<!T> = (T, T) -> (T, T)

  function Meet<T>(rule: Rule<T>, row: Row<T>, c: NodeId, p: NodeId): Row<T> {
    if p == c || c !in row || p !in row then row
    else row[c := rule(row[c], row[p]).0][p := rule(row[c], row[p]).1]
  }

  function PassRow<T>(rule: Rule<T>, row: Row<T>, c: NodeId, order: seq<NodeId>): Row<T> {
    if order == [] then row else PassRow(rule, Meet(rule, row, c, order[0]), c, order[1..])
  }

  ghost predicate Everywhere<T>(row: Row<T>, good: T -> bool) {
    forall n :: n in row ==> good(row[n])
  }

  /** The rule keeps `good` when both entries have it. */
  ghost predicate Closed<T(!new)>(rule: Rule<T>, good: T -> bool) {
    forall l, r {:trigger rule(l, r)} :: good(l) && good(r) ==> good(rule(l, r).0) && good(rule(l, r).1)
  }

  lemma {:induction false} PassClosed<T(!new)>(rule: Rule<T>, row: Row<T>, c: NodeId, order: seq<NodeId>,
                                               good: T -> bool)
    requires Closed(rule, good) && Everywhere(row, good)
    ensures PassRow(rule, row, c, order).Keys == row.Keys && Everywhere(PassRow(rule, row, c, order), good)
    decreases |order|
  {
    if order != [] {
      PassClosed(rule, Meet(rule, row, c, order[0]), c, order[1..], good);
    }
  }

  /** Each side of a meeting keeps `above` by itself. */
  ghost predicate Upward<T(!new)>(rule: Rule<T>, good: T -> bool, above: T -> bool) {
    forall l, r {:trigger rule(l, r)} :: good(l) && good(r) ==>
      (above(l) ==> above(rule(l, r).0)) && (above(r) ==> above(rule(l, r).1))
  }

  lemma {:induction false} PassUpward<T(!new)>(rule: Rule<T>, row: Row<T>, c: NodeId, order: seq<NodeId>,
                                               good: T -> bool, above: T -> bool, n: NodeId)
    requires Closed(rule, good) && Everywhere(row, good) && Upward(rule, good, above)
    requires n in row && above(row[n])
    ensures n in PassRow(rule, row, c, order) && above(PassRow(rule, row, c, order)[n])
    decreases |order|
  {
    if order != [] {
      PassUpward(rule, Meet(rule, row, c, order[0]), c, order[1..], good, above, n);
    }
  }

  /** A meeting settles the two entries, and the first one keeps whatever it had settled. */
  ghost predicate Settling<T(!new)>(rule: Rule<T>, good: T -> bool, settled: (T, T) -> bool) {
    && (forall l, r {:trigger rule(l, r)} :: good(l) && good(r) ==> settled(rule(l, r).0, rule(l, r).1))
    && (forall l, r, x {:trigger rule(l, r), settled(l, x)} :: good(l) && good(r) && good(x) && settled(l, x) ==>
        settled(rule(l, r).0, x))
  }

  lemma {:induction false} PassSettles<T(!new)>(rule: Rule<T>, row: Row<T>, c: NodeId, order: seq<NodeId>,
                                                good: T -> bool, settled: (T, T) -> bool, done: set<NodeId>)
    requires Closed(rule, good) && Everywhere(row, good) && Settling(rule, good, settled) && c in row
    requires forall x {:trigger good(x)} :: good(x) ==> settled(x, x)
    requires forall n :: n in done && n in row ==> settled(row[c], row[n])
    ensures var after := PassRow(rule, row, c, order);
            c in after && forall n :: (n in done || n in order) && n in after ==> settled(after[c], after[n])
    decreases |order|
  {
    if order != [] {
      var p := order[0];
      var next := Meet(rule, row, c, p);
      forall n | n in done + {p} && n in next ensures settled(next[c], next[n]) {
        if p != c && p in row && n != p && n != c {
          assert next[n] == row[n] && next[c] == rule(row[c], row[p]).0;
        } else if n == c {
          assert good(next[c]);
        }
      }
      PassSettles(rule, next, c, order[1..], good, settled, done + {p});
      assert forall n :: n in order ==> n == p || n in order[1..];
    }
  }

  /** Meeting a settled entry leaves the first one alone and makes the other agree with it. */
  ghost predicate Spreading<T(!new)>(rule: Rule<T>, good: T -> bool, settled: (T, T) -> bool, agree: (T, T) -> bool) {
    forall l, r {:trigger rule(l, r)} :: good(l) && good(r) && settled(l, r) ==>
      rule(l, r).0 == l && agree(l, rule(l, r).1) && settled(l, rule(l, r).1)
  }

  lemma {:induction false} PassSpreads<T(!new)>(rule: Rule<T>, row: Row<T>, c: NodeId, order: seq<NodeId>,
                                                good: T -> bool, settled: (T, T) -> bool, agree: (T, T) -> bool,
                                                agreed: set<NodeId>)
    requires Closed(rule, good) && Everywhere(row, good) && Spreading(rule, good, settled, agree) && c in row
    requires forall n :: n in row ==> settled(row[c], row[n])
    requires agree(row[c], row[c]) && forall n :: n in agreed && n in row ==> agree(row[c], row[n])
    ensures var after := PassRow(rule, row, c, order);
            && c in after && after[c] == row[c]
            && forall n :: (n in agreed || n in order) && n in after ==> agree(after[c], after[n])
    decreases |order|
  {
    if order != [] {
      var p := order[0];
      var next := Meet(rule, row, c, p);
      if p != c && p in row {
        assert settled(row[c], row[p]);
      }
      PassSpreads(rule, next, c, order[1..], good, settled, agree, agreed + {p});
      assert forall n :: n in order ==> n == p || n in order[1..];
    }
  }

  /** What the node carries, it keeps through meetings with `small` entries. */
  ghost predicate Carrying<T(!new)>(rule: Rule<T>, good: T -> bool, small: T -> bool, carried: T -> bool) {
    forall l, r {:trigger rule(l, r)} :: good(l) && good(r) && carried(l) && small(r) ==> carried(rule(l, r).0)
  }

  lemma {:induction false} PassCarries<T(!new)>(rule: Rule<T>, row: Row<T>, c: NodeId, order: seq<NodeId>,
                                                good: T -> bool, small: T -> bool, carried: T -> bool)
    requires Closed(rule, good) && Everywhere(row, good) && Carrying(rule, good, small, carried) && Distinct(order)
    requires c in row && carried(row[c])
    requires forall n :: n in order && n in row && n != c ==> small(row[n])
    ensures c in PassRow(rule, row, c, order) && carried(PassRow(rule, row, c, order)[c])
    decreases |order|
  {
    if order != [] {
      var p, rest := order[0], order[1..];
      assert p !in rest;
      PassCarries(rule, Meet(rule, row, c, p), c, rest, good, small, carried);
    }
  }

  /** When every entry but that of `x` is small, the node comes to carry what `x` has. */
  lemma {:induction false} PassPicksUp<T(!new)>(rule: Rule<T>, row: Row<T>, c: NodeId, order: seq<NodeId>,
                                                good: T -> bool, small: T -> bool, carried: T -> bool, x: NodeId)
    requires Closed(rule, good) && Everywhere(row, good) && Carrying(rule, good, small, carried) && Distinct(order)
    requires Closed(rule, y => good(y) && small(y))
    requires c in row && x in row && x in order
    requires forall n :: n in row && n != x ==> small(row[n])
    requires x == c ==> carried(row[c])
    requires forall l {:trigger rule(l, row[x])} :: good(l) && small(l) ==> carried(rule(l, row[x]).0)
    ensures c in PassRow(rule, row, c, order) && carried(PassRow(rule, row, c, order)[c])
    decreases |order|
  {
    var p, rest := order[0], order[1..];
    assert p !in rest;
    if x == c {
      PassCarries(rule, row, c, order, good, small, carried);
    } else if p == x {
      PassCarries(rule, Meet(rule, row, c, p), c, rest, good, small, carried);
    } else {
      PassPicksUp(rule, Meet(rule, row, c, p), c, rest, good, small, carried, x);
    }
  }
}
