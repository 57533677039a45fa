/** The in-memory time map the indexer fills, as a value, and the effect of
    one reader callback on it (`Step`) and of a whole archive (`Ingest`).
    The class `Server.Api` holds the same state in fields and arrays and is
    proved to follow these functions. */
module Timeline {
  import opened Archive

  /** The indexer's map: the plan text and its digest (both `null` until a
      plan arrives), the day anchor (`0` while unset), and the two slot
      arrays indexed by second of the day. A field slot is `None` while
      nothing was written to it; an engine slot holds the payloads appended
      to it, `[]` standing for a slot never created. */
  datatype TimeMap = TimeMap(
    model: Option<string>,
    modelHash: Option<string>,
    modelTime: int,
    field: seq<Option<string>>,
    engines: seq<seq<Bytes>>)

  ghost predicate WellFormed(m: TimeMap)
  {
    |m.field| == DaySlots && |m.engines| == DaySlots
  }

  /** The map as the `Api` constructor allocates it. */
  function Empty(): (m: TimeMap)
    ensures WellFormed(m)
    ensures m.model == None && m.modelHash == None && m.modelTime == 0
    ensures forall i :: 0 <= i < DaySlots ==> m.field[i] == None && m.engines[i] == []
  {
    TimeMap(None, None, 0, seq(DaySlots, _ => None), seq(DaySlots, _ => []))
  }

  /** A plan counts as already stored only when its text is truthy, that
      is present and non-empty. */
  predicate PlanIsSet(m: TimeMap)
  {
    m.model.Some? && m.model.value != ""
  }

  /** The digest always belongs to the stored plan text. */
  ghost predicate HashMatches(h: Host, m: TimeMap)
  {
    m.modelHash == if m.model.Some? then Some(h.md5(m.model.value)) else None
  }

  /** The slot a record time falls in: whole seconds elapsed since the
      anchor, rounded down (a floor, also for times before the anchor). */
  function SlotIndex(time: int, modelTime: int): (index: int)
    ensures modelTime + 1000 * index <= time < modelTime + 1000 * (index + 1)
  {
    (time - modelTime) / 1000
  }

  predicate InDay(index: int)
  {
    0 <= index < DaySlots
  }

  /** The outcome of one callback: the updated map, or the process exit
      that a second plan causes. */
  datatype StepResult = Continue(next: TimeMap) | Exit

  /** One reader callback. */
  function Step(h: Host, m: TimeMap, r: Record): (res: StepResult)
    requires WellFormed(m)
    // A plan record while a plan is stored ends the process.
    ensures res.Exit? <==> r.kind == Plan && PlanIsSet(m)
    ensures res.Continue? ==> WellFormed(res.next)
    // Accepting a plan stores its text and the digest of that same text,
    // and nothing else.
    ensures res.Continue? && r.kind == Plan ==>
      res.next == m.(model := Some(h.text(r.data)), modelHash := Some(h.md5(h.text(r.data))))
    ensures res.Continue? && r.kind != Plan ==>
      res.next.model == m.model && res.next.modelHash == m.modelHash
    // Only a field record arriving while the anchor is unset sets it.
    ensures res.Continue? ==>
      res.next.modelTime == if r.kind == Field && m.modelTime == 0 then h.localMidnight(r.time) else m.modelTime
    // A field record overwrites the one slot its time maps to, if that slot
    // is within the day; every other field slot keeps its text.
    ensures res.Continue? ==> forall i :: 0 <= i < DaySlots ==>
      res.next.field[i] ==
        if r.kind == Field && SlotIndex(r.time, res.next.modelTime) == i then Some(h.text(r.data)) else m.field[i]
    // An engine record appends its payload to the one slot its time maps
    // to, if the anchor is set and that slot is within the day; every other
    // engine slot keeps its list.
    ensures res.Continue? ==> forall i :: 0 <= i < DaySlots ==>
      res.next.engines[i] ==
        if r.kind == Engine && m.modelTime != 0 && SlotIndex(r.time, m.modelTime) == i
        then m.engines[i] + [r.data] else m.engines[i]
  {
    match r.kind
    case Plan =>
      if PlanIsSet(m) then Exit
      else
        var text := h.text(r.data);
        Continue(m.(model := Some(text), modelHash := Some(h.md5(text))))
    case Field =>
      var anchor := if m.modelTime == 0 then h.localMidnight(r.time) else m.modelTime;
      var index := SlotIndex(r.time, anchor);
      Continue(m.(modelTime := anchor,
                  field := if InDay(index) then m.field[index := Some(h.text(r.data))] else m.field))
    case Engine =>
      if m.modelTime == 0 then Continue(m)
      else
        var index := SlotIndex(r.time, m.modelTime);
        Continue(m.(engines := if InDay(index) then m.engines[index := m.engines[index] + [r.data]] else m.engines))
    case Other(_) =>
      Continue(m)
  }

  /** The whole single pass of the reader over an archive, in order,
      stopping at the first process exit. */
  function Ingest(h: Host, m: TimeMap, rs: seq<Record>): (res: StepResult)
    requires WellFormed(m)
    ensures res.Continue? ==> WellFormed(res.next)
    // The digest stays the digest of the stored plan text.
    ensures res.Continue? && HashMatches(h, m) ==> HashMatches(h, res.next)
    decreases |rs|
  {
    if rs == [] then Continue(m)
    else
      match Step(h, m, rs[0])
      case Exit => Exit
      case Continue(m') => Ingest(h, m', rs[1..])
  }
}
