/** The form in which versions travel between nodes: counters become 32-bit, a missing clock
    becomes an empty one, and a zero timestamp is replaced by the receiver's clock reading. */
module Wire {
  import opened Clocks
  import opened Versions
  import opened Payloads
  import opened Merging
  import opened Writes

  const INT32_MIN: int := -0x8000_0000
  const INT32_MAX: int := 0x7FFF_FFFF

  datatype ProtoValue = ProtoValue(value: Value, clock: map<NodeId, int>, conflicts: seq<ProtoValue>, nanos: int)

  /** Conversion of an integer to int32, with wrap-around. */
  function Truncated(n: int): (r: int)
    ensures INT32_MIN <= r <= INT32_MAX
    ensures r == n <==> INT32_MIN <= n <= INT32_MAX
    ensures INT32_MIN <= n ==> r <= n
    ensures (n - r) % 0x1_0000_0000 == 0
  {
    (n - INT32_MIN) % 0x1_0000_0000 + INT32_MIN
  }

  function EncodeClock(c: Option<Clock>): map<NodeId, int> {
    if c.Some? then map n | n in c.value :: Truncated(c.value[n]) else map[]
  }

  function Encode(v: StoredValue): ProtoValue
    decreases v, 1
  {
    ProtoValue(v.value, EncodeClock(v.clock), EncodeEach(v.conflicts), v.time)
  }

  function EncodeEach(vs: seq<StoredValue>): (r: seq<ProtoValue>)
    ensures |r| == |vs|
    decreases vs, 0
  {
    if vs == [] then [] else [Encode(vs[0])] + EncodeEach(vs[1..])
  }

  function Decode(p: ProtoValue, now: int): StoredValue
    decreases p, 1
  {
    StoredValue(p.value, Some(p.clock), DecodeEach(p.conflicts, now), if p.nanos == 0 then now else p.nanos)
  }

  function DecodeEach(ps: seq<ProtoValue>, now: int): (r: seq<StoredValue>)
    ensures |r| == |ps|
    decreases ps, 0
  {
    if ps == [] then [] else [Decode(ps[0], now)] + DecodeEach(ps[1..], now)
  }

  /** A version after a trip over the wire. */
  function Sent(v: StoredValue, now: int): StoredValue {
    Decode(Encode(v), now)
  }

  function SentEach(vs: seq<StoredValue>, now: int): seq<StoredValue> {
    DecodeEach(EncodeEach(vs), now)
  }

  /** The same version with every missing clock made empty, at every depth. */
  function Clocked(v: StoredValue): StoredValue
    decreases v, 1
  {
    StoredValue(v.value, Some(ClockOf(v)), ClockedEach(v.conflicts), v.time)
  }

  function ClockedEach(vs: seq<StoredValue>): (r: seq<StoredValue>)
    ensures |r| == |vs|
    decreases vs, 0
  {
    if vs == [] then [] else [Clocked(vs[0])] + ClockedEach(vs[1..])
  }

  predicate ClockFits(c: Clock) {
    forall n :: n in c ==> INT32_MIN <= c[n] <= INT32_MAX
  }

  /** Every counter in the tree fits 32 bits. */
  predicate Fits(v: StoredValue)
    decreases v, 1
  {
    ClockFits(ClockOf(v)) && EachFits(v.conflicts)
  }

  predicate EachFits(vs: seq<StoredValue>)
    decreases vs, 0
  {
    vs != [] ==> Fits(vs[0]) && EachFits(vs[1..])
  }

  predicate Dated(v: StoredValue)
    decreases v, 1
  {
    v.time != 0 && EachDated(v.conflicts)
  }

  predicate EachDated(vs: seq<StoredValue>)
    decreases vs, 0
  {
    vs != [] ==> Dated(vs[0]) && EachDated(vs[1..])
  }

  lemma {:induction false} EncodeClockExact(c: Option<Clock>)
    ensures var k: Clock := if c.Some? then c.value else map[];
            EncodeClock(c) == k <==> ClockFits(k)
  {
  }

  /** Decoding what was encoded gives back the version, with missing clocks made empty, exactly
      when all counters fit 32 bits and no timestamp in the tree is zero. */
  lemma {:induction false} RoundTrip(v: StoredValue, now: int)
    requires now != 0
    ensures Sent(v, now) == Clocked(v) <==> Fits(v) && Dated(v)
    decreases v, 1
  {
    EncodeClockExact(v.clock);
    RoundTripEach(v.conflicts, now);
  }

  lemma {:induction false} RoundTripEach(vs: seq<StoredValue>, now: int)
    requires now != 0
    ensures SentEach(vs, now) == ClockedEach(vs) <==> EachFits(vs) && EachDated(vs)
    decreases vs, 0
  {
    if vs != [] {
      RoundTrip(vs[0], now);
      RoundTripEach(vs[1..], now);
      SentHead(vs, now);
      assert ClockedEach(vs)[0] == Clocked(vs[0]) && ClockedEach(vs)[1..] == ClockedEach(vs[1..]);
    }
  }

  /** What a trip does to any version: counters wrap, a missing clock becomes empty, a zero time becomes the
      time of arrival, and the conflicts fare likewise, in order. */
  lemma {:induction false} SentExactly(v: StoredValue, now: int)
    ensures var s := Sent(v, now);
            && s.value == v.value && s.time == (if v.time == 0 then now else v.time)
            && s.clock.Some? && s.clock.value.Keys == ClockOf(v).Keys
            && (forall n :: n in ClockOf(v) ==> s.clock.value[n] == Truncated(ClockOf(v)[n]))
            && |s.conflicts| == |v.conflicts|
            && (forall i :: 0 <= i < |v.conflicts| ==> s.conflicts[i] == Sent(v.conflicts[i], now))
  {
    SentEachAt(v.conflicts, now);
  }

  lemma {:induction false} SentEachAt(vs: seq<StoredValue>, now: int)
    ensures |SentEach(vs, now)| == |vs| && forall i :: 0 <= i < |vs| ==> SentEach(vs, now)[i] == Sent(vs[i], now)
    decreases |vs|
  {
    if vs != [] {
      SentHead(vs, now);
      SentEachAt(vs[1..], now);
      forall i | 0 <= i < |vs| ensures SentEach(vs, now)[i] == Sent(vs[i], now) {
        if i > 0 {
          assert vs[i] == vs[1..][i - 1];
        }
      }
    }
  }

  lemma {:induction false} SentHead(vs: seq<StoredValue>, now: int)
    requires vs != []
    ensures SentEach(vs, now) == [Sent(vs[0], now)] + SentEach(vs[1..], now)
  {
  }

  /** A version whose counters fit keeps its payload, values and clock on the wire. */
  lemma {:induction false} SentSame(less: PayloadOrder, v: StoredValue, now: int)
    requires Fits(v)
    ensures var s := Sent(v, now);
            && s.value == v.value && s.clock == Some(ClockOf(v)) && Fits(s)
            && PayloadOf(less, s) == PayloadOf(less, v)
            && TreeValues(s) == TreeValues(v)
    decreases v, 1
  {
    EncodeClockExact(v.clock);
    SentEachSame(less, v.conflicts, now);
  }

  lemma {:induction false} SentEachSame(less: PayloadOrder, vs: seq<StoredValue>, now: int)
    requires EachFits(vs)
    ensures var ss := SentEach(vs, now);
            EachFits(ss) && PayloadsOf(less, ss) == PayloadsOf(less, vs) && ForestValues(ss) == ForestValues(vs)
    decreases vs, 0
  {
    if vs != [] {
      SentSame(less, vs[0], now);
      SentEachSame(less, vs[1..], now);
      SentHead(vs, now);
      PayloadsMore(less, SentEach(vs, now), vs);
    }
  }

  // ---------- Single writes ----------

  /** A write as it arrives: a value, a clock that fits the wire, a time. */
  predicate Plain(w: Write) {
    w.value != Nil && ClockFits(w.clock) && w.time != 0
  }

  lemma {:induction false} FreshFixed(x: Write)
    requires Plain(x)
    ensures Fits(Fresh(x)) && Dated(Fresh(x)) && Clocked(Fresh(x)) == Fresh(x)
  {
    assert |ClockedEach(Fresh(x).conflicts)| == 0;
  }

  /** A single plain write goes over the wire unchanged. */
  lemma {:induction false} FreshSent(x: Write, now: int)
    requires Plain(x) && now != 0
    ensures Sent(Fresh(x), now) == Fresh(x) && Fits(Fresh(x))
  {
    FreshFixed(x);
    RoundTrip(Fresh(x), now);
  }

  // ---------- Counters keep fitting ----------

  lemma {:induction false} EachFitsAppend(xs: seq<StoredValue>, ys: seq<StoredValue>)
    ensures EachFits(xs + ys) <==> EachFits(xs) && EachFits(ys)
  {
    if xs == [] {
      assert xs + ys == ys;
    } else {
      assert (xs + ys)[0] == xs[0] && (xs + ys)[1..] == xs[1..] + ys;
      EachFitsAppend(xs[1..], ys);
    }
  }

  lemma {:induction false} CombineFits(a: StoredValue, b: StoredValue)
    requires Fits(a) && Fits(b)
    ensures Fits(Combine(a, b))
  {
    var base := b.(conflicts := []);
    assert Fits(base) && [base][1..] == [];
    EachFitsAppend(b.conflicts, [base]);
    EachFitsAppend(a.conflicts, ConflictEntries(b));
    assert ClockFits(Join(ClockOf(a), ClockOf(b)));
  }

  lemma {:induction false} MergeFits(less: PayloadOrder, a: StoredValue, b: StoredValue)
    requires Fits(a) && Fits(b)
    ensures Fits(Merge(less, a, b))
  {
    CombineFits(a, b);
    CombineFits(b, a);
  }

  lemma {:induction false} PutFits(existing: Option<StoredValue>, w: Write)
    requires existing.Some? ==> Fits(existing.value)
    requires ClockFits(w.clock)
    ensures Fits(Put(existing, w))
  {
    if existing.Some? {
      EachFitsAppend(existing.value.conflicts, [existing.value]);
      assert ClockFits(Join(w.clock, ClockOf(existing.value)));
    }
  }
}
