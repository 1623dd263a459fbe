/** The payload hashed for anti-entropy: value, clock and the conflicts sorted by their canonical
    JSON text. The order of those texts is the parameter `less`; injective JSON makes it a
    strict total order on payloads. */
module Payloads {
  import opened Sequences
  import opened Clocks
  import opened Sorting
  import opened Versions

  datatype Payload = Payload(value: Value, clock: Clock, conflicts: seq<Payload>)

  type PayloadOrder = (Payload, Payload) -> bool

  function PayloadOf(less: PayloadOrder, v: StoredValue): Payload
    decreases v, 1
  {
    Payload(v.value, ClockOf(v), Sort(less, PayloadsOf(less, v.conflicts)))
  }

  function PayloadsOf(less: PayloadOrder, vs: seq<StoredValue>): (r: seq<Payload>)
    ensures |r| == |vs|
    ensures forall i :: 0 <= i < |vs| ==> r[i] == PayloadOf(less, vs[i])
    decreases vs, 0
  {
    seq(|vs|, i requires 0 <= i < |vs| => PayloadOf(less, vs[i]))
  }

  function EntryPayload(less: PayloadOrder, e: Option<StoredValue>): Option<Payload> {
    if e.Some? then Some(PayloadOf(less, e.value)) else None
  }

  /** Equality of versions up to timestamps, up to a missing clock counting as empty, and up to a
      rearrangement of the conflicts at every depth. */
  ghost predicate SameVersion(v: StoredValue, w: StoredValue)
    decreases v, 1
  {
    v.value == w.value && ClockOf(v) == ClockOf(w) && SameVersions(v.conflicts, w.conflicts)
  }

  ghost predicate SameVersions(vs: seq<StoredValue>, ws: seq<StoredValue>)
    decreases vs, 0
  {
    if vs == [] then ws == []
    else exists j :: 0 <= j < |ws| && SameVersion(vs[0], ws[j]) && SameVersions(vs[1..], Without(ws, j))
  }

  lemma {:induction false} PayloadsWithout(less: PayloadOrder, ws: seq<StoredValue>, j: nat)
    requires j < |ws|
    ensures PayloadsOf(less, Without(ws, j)) == Without(PayloadsOf(less, ws), j)
  {
    WithoutMapped(ws, j, v => PayloadOf(less, v), PayloadsOf(less, ws), PayloadsOf(less, Without(ws, j)));
  }

  lemma {:induction false} PayloadsTail(less: PayloadOrder, vs: seq<StoredValue>)
    requires vs != []
    ensures PayloadsOf(less, vs)[0] == PayloadOf(less, vs[0])
    ensures PayloadsOf(less, vs[1..]) == PayloadsOf(less, vs)[1..]
  {
  }

  lemma {:induction false} PayloadsMore(less: PayloadOrder, vs: seq<StoredValue>, ws: seq<StoredValue>)
    requires vs != [] && ws != [] && PayloadOf(less, vs[0]) == PayloadOf(less, ws[0])
    requires PayloadsOf(less, vs[1..]) == PayloadsOf(less, ws[1..])
    ensures PayloadsOf(less, vs) == PayloadsOf(less, ws)
  {
  }

  lemma {:induction false} ForestWithout(ws: seq<StoredValue>, j: nat)
    requires j < |ws|
    ensures ForestValues(ws) == ForestValues(Without(ws, j)) + TreeValues(ws[j])
  {
    assert ws == ws[..j] + ([ws[j]] + ws[j + 1..]);
    ForestAppend(ws[..j], [ws[j]] + ws[j + 1..]);
    ForestAppend([ws[j]], ws[j + 1..]);
    ForestOne(ws[j]);
    ForestAppend(ws[..j], ws[j + 1..]);
  }

  /** Payloads are a canonical form: equal payloads mean the same version, and conversely. */
  lemma {:induction false} PayloadCanonical(less: PayloadOrder, v: StoredValue, w: StoredValue)
    requires StrictTotal(less)
    ensures PayloadOf(less, v) == PayloadOf(less, w) <==> SameVersion(v, w)
    decreases v, 1
  {
    SortCanonical(less, PayloadsOf(less, v.conflicts), PayloadsOf(less, w.conflicts));
    if SameVersion(v, w) {
      SameHaveEqualPayloads(less, v.conflicts, w.conflicts);
    } else if PayloadOf(less, v) == PayloadOf(less, w) {
      EqualPayloadsAreSame(less, v.conflicts, w.conflicts);
    }
  }

  lemma {:induction false} SameHaveEqualPayloads(less: PayloadOrder, vs: seq<StoredValue>, ws: seq<StoredValue>)
    requires StrictTotal(less) && SameVersions(vs, ws)
    ensures multiset(PayloadsOf(less, vs)) == multiset(PayloadsOf(less, ws))
    decreases vs, 0
  {
    if vs != [] {
      var j :| 0 <= j < |ws| && SameVersion(vs[0], ws[j]) && SameVersions(vs[1..], Without(ws, j));
      PayloadCanonical(less, vs[0], ws[j]);
      SameHaveEqualPayloads(less, vs[1..], Without(ws, j));
      PayloadsTail(less, vs);
      PayloadsWithout(less, ws, j);
      MatchHead(PayloadsOf(less, vs), PayloadsOf(less, ws), j);
    }
  }

  lemma {:induction false} EqualPayloadsAreSame(less: PayloadOrder, vs: seq<StoredValue>, ws: seq<StoredValue>)
    requires StrictTotal(less) && multiset(PayloadsOf(less, vs)) == multiset(PayloadsOf(less, ws))
    ensures SameVersions(vs, ws)
    decreases vs, 0
  {
    if vs == [] {
      assert |multiset(PayloadsOf(less, ws))| == |ws|;
    } else {
      var ps := PayloadsOf(less, ws);
      PayloadsTail(less, vs);
      assert PayloadsOf(less, vs)[0] in multiset(ps);
      var j :| 0 <= j < |ps| && ps[j] == PayloadsOf(less, vs)[0];
      MatchHead(PayloadsOf(less, vs), ps, j);
      PayloadsWithout(less, ws, j);
      PayloadCanonical(less, vs[0], ws[j]);
      EqualPayloadsAreSame(less, vs[1..], Without(ws, j));
    }
  }

  /** The same version holds the same values. */
  lemma {:induction false} SameVersionValues(v: StoredValue, w: StoredValue)
    requires SameVersion(v, w)
    ensures TreeValues(v) == TreeValues(w)
    decreases v, 1
  {
    SameVersionsValues(v.conflicts, w.conflicts);
  }

  lemma {:induction false} SameVersionsValues(vs: seq<StoredValue>, ws: seq<StoredValue>)
    requires SameVersions(vs, ws)
    ensures ForestValues(vs) == ForestValues(ws)
    decreases vs, 0
  {
    if vs != [] {
      var j :| 0 <= j < |ws| && SameVersion(vs[0], ws[j]) && SameVersions(vs[1..], Without(ws, j));
      SameVersionValues(vs[0], ws[j]);
      SameVersionsValues(vs[1..], Without(ws, j));
      ForestWithout(ws, j);
      assert ForestValues(vs) == TreeValues(vs[0]) + ForestValues(vs[1..]);
    }
  }
}
