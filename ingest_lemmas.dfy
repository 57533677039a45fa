/** What one pass of the indexer over an archive leaves in the time map,
    stated against reference definitions over the record sequence. */
module IngestProperties {
  import opened Archive
  import opened Timeline

  predicate FieldTargets(r: Record, anchor: int, i: int)
  {
    r.kind == Field && SlotIndex(r.time, anchor) == i
  }

  predicate EngineTargets(r: Record, anchor: int, i: int)
  {
    r.kind == Engine && SlotIndex(r.time, anchor) == i
  }

  ghost predicate NonEmptyPlan(h: Host, r: Record)
  {
    r.kind == Plan && h.text(r.data) != ""
  }

  /** The text of the LAST field record of `rs` whose time maps to slot `i`
      from `anchor`, if there is one. */
  function LastFieldText(h: Host, rs: seq<Record>, anchor: int, i: int): Option<string>
    decreases |rs|
  {
    if rs == [] then None
    else if FieldTargets(rs[|rs| - 1], anchor, i) then Some(h.text(rs[|rs| - 1].data))
    else LastFieldText(h, rs[..|rs| - 1], anchor, i)
  }

  /** The payloads of ALL engine records of `rs` whose time maps to slot
      `i` from `anchor`, in arrival order. */
  function EnginePayloads(rs: seq<Record>, anchor: int, i: int): seq<Bytes>
    decreases |rs|
  {
    if rs == [] then []
    else (if EngineTargets(rs[0], anchor, i) then [rs[0].data] else []) + EnginePayloads(rs[1..], anchor, i)
  }

  /** Some plan record of `rs` arrives while a plan is stored: either one
      was stored before the pass, or an earlier record of `rs` is a plan
      with non-empty text. */
  ghost predicate RepeatedPlan(h: Host, m: TimeMap, rs: seq<Record>)
  {
    exists j :: 0 <= j < |rs| && rs[j].kind == Plan &&
      (PlanIsSet(m) || exists i :: 0 <= i < j && NonEmptyPlan(h, rs[i]))
  }

  /** Ingesting two pieces of an archive one after the other is ingesting
      the whole. */
  lemma {:induction false} IngestAppend(h: Host, m: TimeMap, a: seq<Record>, b: seq<Record>)
    requires WellFormed(m)
    ensures Ingest(h, m, a + b) ==
      match Ingest(h, m, a)
      case Exit => Exit
      case Continue(m') => Ingest(h, m', b)
    decreases |a|
  {
    if a == [] {
      assert a + b == b;
    } else {
      assert (a + b)[0] == a[0];
      assert (a + b)[1..] == a[1..] + b;
      match Step(h, m, a[0])
      case Exit =>
      case Continue(m1) => IngestAppend(h, m1, a[1..], b);
    }
  }

  /** The process exits during the pass exactly when some plan record
      arrives while a plan is stored. */
  lemma {:induction false} ExitIffRepeatedPlan(h: Host, m: TimeMap, rs: seq<Record>)
    requires WellFormed(m)
    ensures Ingest(h, m, rs).Exit? <==> RepeatedPlan(h, m, rs)
    decreases |rs|
  {
    if rs == [] {
      return;
    }
    var r, rest := rs[0], rs[1..];
    match Step(h, m, r)
    case Exit =>
      assert rs[0].kind == Plan && PlanIsSet(m);
      assert RepeatedPlan(h, m, rs);
    case Continue(m1) =>
      ExitIffRepeatedPlan(h, m1, rest);
      assert PlanIsSet(m1) == (if r.kind == Plan then NonEmptyPlan(h, r) else PlanIsSet(m));
      if RepeatedPlan(h, m1, rest) {
        var j :| 0 <= j < |rest| && rest[j].kind == Plan &&
          (PlanIsSet(m1) || exists i :: 0 <= i < j && NonEmptyPlan(h, rest[i]));
        assert rs[j + 1] == rest[j];
        if PlanIsSet(m1) {
          if r.kind == Plan {
            assert NonEmptyPlan(h, rs[0]);
          }
        } else {
          var i :| 0 <= i < j && NonEmptyPlan(h, rest[i]);
          assert rs[i + 1] == rest[i];
        }
        assert RepeatedPlan(h, m, rs);
      }
      if RepeatedPlan(h, m, rs) {
        var j :| 0 <= j < |rs| && rs[j].kind == Plan &&
          (PlanIsSet(m) || exists i :: 0 <= i < j && NonEmptyPlan(h, rs[i]));
        assert j != 0;
        assert rest[j - 1] == rs[j];
        if !PlanIsSet(m) {
          var i :| 0 <= i < j && NonEmptyPlan(h, rs[i]);
          if i == 0 {
            assert PlanIsSet(m1);
          } else {
            assert rest[i - 1] == rs[i];
          }
        } else {
          assert r.kind != Plan;
        }
        assert RepeatedPlan(h, m1, rest);
      }
  }

  /** Once set, the day anchor never changes. */
  lemma {:induction false} AnchorSetOnce(h: Host, m: TimeMap, rs: seq<Record>)
    requires WellFormed(m) && m.modelTime != 0
    ensures Ingest(h, m, rs).Continue? ==> Ingest(h, m, rs).next.modelTime == m.modelTime
    decreases |rs|
  {
    if rs != [] {
      match Step(h, m, rs[0])
      case Exit =>
      case Continue(m1) => AnchorSetOnce(h, m1, rs[1..]);
    }
  }

  /** Before the first field record nothing sets the anchor, and while it
      is unset no slot changes: engine records arriving then are dropped. */
  lemma {:induction false} NoFieldRecordsLeaveSlotsUnchanged(h: Host, m: TimeMap, rs: seq<Record>)
    requires WellFormed(m) && m.modelTime == 0
    requires forall k :: 0 <= k < |rs| ==> rs[k].kind != Field
    ensures Ingest(h, m, rs).Continue? ==>
      var f := Ingest(h, m, rs).next;
      f.modelTime == 0 && f.field == m.field && f.engines == m.engines
    decreases |rs|
  {
    if rs != [] {
      match Step(h, m, rs[0])
      case Exit =>
      case Continue(m1) =>
        assert m1.field == m.field;
        assert m1.engines == m.engines;
        NoFieldRecordsLeaveSlotsUnchanged(h, m1, rs[1..]);
    }
  }

  /** Splitting off the first record of the stream for `LastFieldText`:
      a later record targeting the slot takes precedence over the first. */
  lemma {:induction false} LastFieldTextFirst(h: Host, rs: seq<Record>, anchor: int, i: int)
    requires rs != []
    ensures LastFieldText(h, rs, anchor, i) ==
      var later := LastFieldText(h, rs[1..], anchor, i);
      if later.Some? then later
      else if FieldTargets(rs[0], anchor, i) then Some(h.text(rs[0].data))
      else None
    decreases |rs|
  {
    var n := |rs|;
    if n == 1 {
      assert rs[1..] == [];
      assert rs[..0] == [];
    } else if !FieldTargets(rs[n - 1], anchor, i) {
      var init := rs[..n - 1];
      LastFieldTextFirst(h, init, anchor, i);
      assert init[0] == rs[0];
      assert init[1..] == rs[1..][..|rs[1..]| - 1];
    } else {
      assert rs[1..][|rs[1..]| - 1] == rs[n - 1];
    }
  }

  /** With the anchor set, each field slot ends up holding the text of the
      last field record that maps to it (last write wins), and keeps its
      earlier content when no record maps to it. */
  lemma {:induction false} FieldLastWriteWins(h: Host, m: TimeMap, rs: seq<Record>, i: int)
    requires WellFormed(m) && m.modelTime != 0 && InDay(i)
    ensures Ingest(h, m, rs).Continue? ==>
      var last := LastFieldText(h, rs, m.modelTime, i);
      Ingest(h, m, rs).next.field[i] == if last.Some? then last else m.field[i]
    decreases |rs|
  {
    if rs != [] {
      match Step(h, m, rs[0])
      case Exit =>
      case Continue(m1) =>
        FieldLastWriteWins(h, m1, rs[1..], i);
        LastFieldTextFirst(h, rs, m.modelTime, i);
    }
  }

  /** With the anchor set, each engine slot gains the payloads of all
      engine records that map to it, in arrival order, and nothing else. */
  lemma {:induction false} EnginesAppendInArrivalOrder(h: Host, m: TimeMap, rs: seq<Record>, i: int)
    requires WellFormed(m) && m.modelTime != 0 && InDay(i)
    ensures Ingest(h, m, rs).Continue? ==>
      Ingest(h, m, rs).next.engines[i] == m.engines[i] + EnginePayloads(rs, m.modelTime, i)
    decreases |rs|
  {
    if rs != [] {
      match Step(h, m, rs[0])
      case Exit =>
      case Continue(m1) =>
        EnginesAppendInArrivalOrder(h, m1, rs[1..], i);
        assert m1.engines[i] == m.engines[i] + (if EngineTargets(rs[0], m.modelTime, i) then [rs[0].data] else []);
    }
  }

  /** The whole pass from the freshly allocated map: the first field record
      fixes the anchor at its local midnight; every field slot holds the
      text of the last field record from then on that maps to it; every
      engine slot holds, in order, the payloads of the engine records from
      then on that map to it; engine records before it are lost. */
  lemma IngestFromEmpty(h: Host, rs: seq<Record>, k: int, i: int)
    requires 0 <= k < |rs| && rs[k].kind == Field
    requires forall j :: 0 <= j < k ==> rs[j].kind != Field
    requires h.localMidnight(rs[k].time) != 0
    requires InDay(i)
    ensures Ingest(h, Empty(), rs).Continue? ==>
      var f := Ingest(h, Empty(), rs).next;
      var anchor := h.localMidnight(rs[k].time);
      && f.modelTime == anchor
      && f.field[i] == LastFieldText(h, rs[k..], anchor, i)
      && f.engines[i] == EnginePayloads(rs[k..], anchor, i)
  {
    var anchor := h.localMidnight(rs[k].time);
    assert rs == rs[..k] + rs[k..];
    IngestAppend(h, Empty(), rs[..k], rs[k..]);
    var before := Ingest(h, Empty(), rs[..k]);
    if before.Continue? {
      var m0 := before.next;
      NoFieldRecordsLeaveSlotsUnchanged(h, Empty(), rs[..k]);
      var tail := rs[k..];
      assert tail[0] == rs[k];
      match Step(h, m0, rs[k])
      case Exit =>
      case Continue(m1) =>
        assert m1.modelTime == anchor;
        assert Ingest(h, m0, tail) == Ingest(h, m1, tail[1..]);
        AnchorSetOnce(h, m1, tail[1..]);
        FieldLastWriteWins(h, m1, tail[1..], i);
        LastFieldTextFirst(h, tail, anchor, i);
        EnginesAppendInArrivalOrder(h, m1, tail[1..], i);
    }
  }

  /** With a well-behaved local-midnight function, the first field record
      always lands inside the day it anchors and is stored. */
  lemma FirstFieldIsStored(h: Host, m: TimeMap, r: Record)
    requires MidnightBounded(h)
    requires WellFormed(m) && m.modelTime == 0 && r.kind == Field
    ensures var index := SlotIndex(r.time, h.localMidnight(r.time));
      InDay(index) && Step(h, m, r).next.field[index] == Some(h.text(r.data))
  {
  }
}
