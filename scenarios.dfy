/** What the read API answers after a whole archive has been ingested. */
module Scenarios {
  import opened Archive
  import opened Timeline
  import opened IngestProperties
  import opened Query

  /** After a clean pass from the fresh map, `/api/field?time=i` answers
      exactly when the last field record mapping to second `i` (counted
      from the first field record's local midnight) carried non-empty
      text, and it then returns that text with, in arrival order, every
      engine payload mapping to second `i`. */
  lemma FieldAnswerAfterIngest(h: Host, rs: seq<Record>, k: int, i: int)
    requires 0 <= k < |rs| && rs[k].kind == Field
    requires forall j :: 0 <= j < k ==> rs[j].kind != Field
    requires h.localMidnight(rs[k].time) != 0
    requires InDay(i)
    requires Ingest(h, Empty(), rs).Continue?
    ensures
      var f := Ingest(h, Empty(), rs).next;
      var anchor := h.localMidnight(rs[k].time);
      var last := LastFieldText(h, rs[k..], anchor, i);
      var r := Handle(true, f, FieldRoute(Number(i)));
      && (r.Ok? <==> last.Some? && last.value != "")
      && (r.Ok? ==> r.body == FieldJson(f.modelHash, last.value, EnginePayloads(rs[k..], anchor, i)))
      && (!r.Ok? ==> r == BadRequest(NoDataFound))
  {
    IngestFromEmpty(h, rs, k, i);
  }

  /** An example day: a plan, two field records one second apart at
      08:00:00 local time, and an engine record at 08:00:00. */
  lemma ExampleDay(h: Host, day: int, p1: Bytes, f1: Bytes, f2: Bytes, e1: Bytes)
    requires day != 0 && h.localMidnight(day + 28_800_000) == day
    requires h.text(f1) != ""
    ensures
      var t0 := day + 28_800_000;
      var rs := [Record(t0, Plan, p1), Record(t0, Field, f1), Record(t0 + 1000, Field, f2), Record(t0, Engine, e1)];
      var res := Ingest(h, Empty(), rs);
      && res.Continue?
      && res.next.modelTime == day
      && res.next.field[28800] == Some(h.text(f1))
      && res.next.field[28801] == Some(h.text(f2))
      && res.next.engines[28800] == [e1]
      && Handle(true, res.next, FieldRoute(Number(28800))) ==
           Ok(FieldJson(Some(h.md5(h.text(p1))), h.text(f1), [e1]))
      && Handle(true, res.next, FieldRoute(Number(5))) == BadRequest(NoDataFound)
  {
    var t0 := day + 28_800_000;
    var rs := [Record(t0, Plan, p1), Record(t0, Field, f1), Record(t0 + 1000, Field, f2), Record(t0, Engine, e1)];
    var m0 := Empty();
    var m1 := Step(h, m0, rs[0]).next;
    var m2 := Step(h, m1, rs[1]).next;
    var m3 := Step(h, m2, rs[2]).next;
    var m4 := Step(h, m3, rs[3]).next;
    assert SlotIndex(t0, day) == 28800;
    assert SlotIndex(t0 + 1000, day) == 28801;
    assert Ingest(h, m3, rs[3..]) == Continue(m4) by {
      assert rs[3..][1..] == [];
    }
    assert Step(h, m0, rs[0]).Continue? && Step(h, m1, rs[1]).Continue? && Step(h, m2, rs[2]).Continue?;
    assert Ingest(h, m2, rs[2..]) == Ingest(h, m3, rs[3..]) by {
      assert rs[2..][0] == rs[2] && rs[2..][1..] == rs[3..];
    }
    assert Ingest(h, m1, rs[1..]) == Ingest(h, m2, rs[2..]) by {
      assert rs[1..][0] == rs[1] && rs[1..][1..] == rs[2..];
    }
  }
}
