/** Records delivered by the archive reader, and the host services the
    indexer relies on but whose implementation is not part of this model. */
module Archive {

  datatype Option<+T> = None | Some(value: T)

  newtype byte = x: int | 0 <= x < 256

  /** A raw record payload (a Node `Buffer`). */
  type Bytes = seq<byte>

  /** Number of one-second slots in the day timeline. */
  const DaySlots: int := 86400

  /** Milliseconds in a 24-hour day. */
  const DayMillis: int := 86_400_000

  /** The record type tag the reader passes to the callback. The tags
      "plan", "field" and "engine" are `Plan`, `Field` and `Engine`; every
      other tag reaches the callback too, as `Other`, and is ignored by it.
      `KindOf` is that classification, so `Other` never carries one of the
      three dispatched tags. */
  datatype Kind = Plan | Field | Engine | Other(tag: string)

  /** The kind of a record whose type tag is `tag`, as the callback's
      string comparisons decide it. */
  function KindOf(tag: string): (k: Kind)
    ensures k == Plan <==> tag == "plan"
    ensures k == Field <==> tag == "field"
    ensures k == Engine <==> tag == "engine"
    ensures k.Other? ==> k.tag == tag
    ensures ClassifiedKind(k)
  {
    if tag == "plan" then Plan
    else if tag == "field" then Field
    else if tag == "engine" then Engine
    else Other(tag)
  }

  /** A record as classified from its tag: `Other` only for tags that
      none of the three branches of the callback matches. */
  predicate ClassifiedKind(k: Kind)
  {
    k.Other? ==> k.tag != "plan" && k.tag != "field" && k.tag != "engine"
  }

  /** One `(time, type, data)` callback invocation of the reader, with the
      time in epoch milliseconds. */
  datatype Record = Record(time: int, kind: Kind, data: Bytes)

  /** Services of the host runtime used by the indexer, as deterministic
      functions: `text` is `Buffer.toString()` (UTF-8 decoding), `md5` is the
      digest of the plan text, and `localMidnight(t)` is the epoch time of
      local midnight of the calendar day containing `t` (the `Date`
      arithmetic of the indexer, which depends on the time zone). */
  datatype Host = Host(text: Bytes -> string, md5: string -> string, localMidnight: int -> int)

  /** The bound a well-behaved local-midnight function satisfies: the
      instant lies within the 24 hours that start at its own midnight. */
  ghost predicate MidnightBounded(h: Host)
  {
    forall t :: h.localMidnight(t) <= t < h.localMidnight(t) + DayMillis
  }
}
