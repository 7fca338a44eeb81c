/** The trace-event records for Perfetto: one process per buffer with one
    thread per configured event name, then a begin and an end record per
    event of every timeline entry. */
module Perfetto {
  import opened Results
  import opened Digits
  import opened Packets
  import opened TraceBuffers
  import opened TraceFrames
  import opened Timeline

  /** The `ph` field: `M` for metadata, `B` and `E` for a slice's ends. */
  datatype Phase = Metadata | Begin | End

  /** One record. Metadata records carry `args.name` and no timestamp; the
      process record also has no thread id. Begin and end records carry an
      empty `args`, written here as `None`. */
  datatype Record = Record(name: string, ph: Phase, pid: nat, tid: Option<nat>, ts: Option<nat>, arg: Option<string>)

  /** `get_perfetto_pid`: the identity's hash modulo 1000. The hash is a
      parameter because Python salts it per interpreter run. */
  function Pid(hash: Ident -> int, k: Ident): (p: nat)
    ensures p < 1000
  {
    hash(k) % 1000
  }

  // ---------------------------------------------------------------------
  // Metadata

  /** `f"{b.p_type} trace for tile {b.loc}"`: the enum prints with its class
      name and the location as a parenthesised pair. */
  function ProcessTitle(k: Ident): string {
    "PacketType." + TypeName(k.ptype) + " trace for tile (" + ToDecimal(k.loc.0) + ", " + ToDecimal(k.loc.1) + ")"
  }

  function ProcessRecord(k: Ident, hash: Ident -> int): Record {
    Record("process_name", Metadata, Pid(hash, k), None, None, Some(ProcessTitle(k)))
  }

  function ThreadRecord(k: Ident, eventName: string, index: nat, hash: Ident -> int): Record {
    Record("thread_name", Metadata, Pid(hash, k), Some(index), None, Some(eventName))
  }

  /** `construct_perfetto_process_and_event_threads`: the process record,
      then one thread per configured name, numbered by position. */
  function ProcessAndEventThreads(k: Ident, events: seq<string>, hash: Ident -> int): (r: seq<Record>)
    ensures |r| == |events| + 1
    ensures r[0].name == "process_name" && r[0].tid.None? && r[0].arg == Some(ProcessTitle(k))
    ensures forall j | 1 <= j < |r| :: r[j].name == "thread_name" && r[j].tid == Some(j - 1) && r[j].arg == Some(events[j - 1])
    ensures forall j | 0 <= j < |r| :: r[j].ph == Metadata && r[j].ts.None? && r[j].pid == Pid(hash, k)
  {
    [ProcessRecord(k, hash)] + seq(|events|, i requires 0 <= i < |events| => ThreadRecord(k, events[i], i, hash))
  }

  /** The first loop of `generate_perfetto_dict`: metadata for every buffer,
      in key order. */
  function MetadataRecords(order: seq<Ident>, events: seq<string>, hash: Ident -> int): (r: seq<Record>)
    ensures |r| == |order| * (|events| + 1)
    ensures forall j | 0 <= j < |r| :: r[j].ph == Metadata && r[j].ts.None?
    decreases |order|
  {
    if |order| == 0 then []
    else
      var head := ProcessAndEventThreads(order[0], events, hash);
      var tail := MetadataRecords(order[1..], events, hash);
      MulSucc(|order| - 1, |events| + 1);
      assert forall j | 0 <= j < |head + tail| :: (head + tail)[j] == if j < |head| then head[j] else tail[j - |head|];
      head + tail
  }

  /** Block `i` of the metadata holds the process and thread records of the
      `i`-th key, between the blocks of the keys before and after it. */
  lemma {:induction false} MetadataBlock(order: seq<Ident>, events: seq<string>, hash: Ident -> int, i: nat)
    requires i < |order|
    ensures MetadataRecords(order, events, hash)
            == MetadataRecords(order[..i], events, hash) + ProcessAndEventThreads(order[i], events, hash)
               + MetadataRecords(order[i + 1..], events, hash)
    decreases i
  {
    var head := ProcessAndEventThreads(order[0], events, hash);
    var rest := order[1..];
    assert MetadataRecords(order, events, hash) == head + MetadataRecords(rest, events, hash);
    if i == 0 {
      assert order[..0] == [];
    } else {
      MetadataBlock(rest, events, hash, i - 1);
      assert order[..i][0] == order[0] && order[..i][1..] == rest[..i - 1];
      assert MetadataRecords(order[..i], events, hash) == head + MetadataRecords(rest[..i - 1], events, hash);
      assert rest[i - 1] == order[i] && rest[i..] == order[i + 1..];
      AppendAssoc3(head, MetadataRecords(rest[..i - 1], events, hash), ProcessAndEventThreads(order[i], events, hash),
                   MetadataRecords(order[i + 1..], events, hash));
    }
  }

  lemma AppendAssoc3<T>(a: seq<T>, b: seq<T>, c: seq<T>, e: seq<T>)
    ensures a + (b + c + e) == (a + b) + c + e
  {
  }

  lemma MulSucc(a: nat, b: nat)
    ensures (a + 1) * b == b + a * b
  {
  }

  // ---------------------------------------------------------------------
  // Event records

  /** `list.index`: the first position holding `x`. */
  function IndexOf(x: string, xs: seq<string>): (r: Option<nat>)
    ensures r.Some? <==> x in xs
    ensures r.Some? ==> r.value < |xs| && xs[r.value] == x
    ensures r.Some? ==> forall j | 0 <= j < r.value :: xs[j] != x
    decreases |xs|
  {
    if |xs| == 0 then None
    else if xs[0] == x then Some(0)
    else match IndexOf(x, xs[1..])
      case None => None
      case Some(i) => Some(i + 1)
  }

  /** A label `list.index` finds: a name in the configured list. A raw
      event number is never found, since the list holds only strings. */
  predicate Listed(l: Label, events: seq<string>) {
    l.Name? && l.name in events
  }

  /** `construct_perfetto_events`: a begin record at the entry's start and
      an end record at its end for every label, on the thread of the
      label's first position in the list; an unlisted label raises. */
  function EntryRecords(k: Ident, iv: Interval, events: seq<string>, hash: Ident -> int): (r: Result<seq<Record>>)
    ensures r.Ok? <==> forall i | 0 <= i < |iv.labels| :: Listed(iv.labels[i], events)
    ensures r.Err? ==> r.error == LabelNotListed
    ensures r.Ok? ==> |r.value| == 2 * |iv.labels|
    ensures r.Ok? ==> forall j | 0 <= j < |r.value| ::
              && r.value[j].ph == (if j % 2 == 0 then Begin else End)
              && r.value[j].name == iv.labels[j / 2].name
              && r.value[j].ts == Some(if j % 2 == 0 then iv.start else iv.end)
              && r.value[j].pid == Pid(hash, k)
              && r.value[j].tid.Some?
              && r.value[j].tid.value < |events|
              && events[r.value[j].tid.value] == r.value[j].name
              && r.value[j].arg.None?
    ensures r.Ok? ==> forall j, x | 0 <= j < |r.value| && 0 <= x < r.value[j].tid.value :: events[x] != r.value[j].name
  {
    if forall i | 0 <= i < |iv.labels| :: Listed(iv.labels[i], events) then
      Ok(seq(2 * |iv.labels|, j requires 0 <= j < 2 * |iv.labels| =>
        var name := iv.labels[j / 2].name;
        Record(name, if j % 2 == 0 then Begin else End, Pid(hash, k),
               Some(IndexOf(name, events).value), Some(if j % 2 == 0 then iv.start else iv.end), None)))
    else Err(LabelNotListed)
  }

  /** Record `2 * p` opens and record `2 * p + 1` closes the same slice:
      same name, process and thread, the thread being the name's, and the
      slice has no duration. */
  predicate PairAt(rs: seq<Record>, p: nat, events: seq<string>)
    requires 2 * p + 1 < |rs|
  {
    var b := rs[2 * p];
    var e := rs[2 * p + 1];
    && b.ph == Begin && e.ph == End
    && b.name == e.name && b.pid == e.pid && b.tid == e.tid
    && b.tid.Some? && b.tid.value < |events| && events[b.tid.value] == b.name
    && b.ts.Some? && b.ts == e.ts
  }

  /** Records that form begin/end pairs throughout. */
  predicate Paired(rs: seq<Record>, events: seq<string>) {
    |rs| % 2 == 0 && forall p | 0 <= p < |rs| / 2 :: PairAt(rs, p, events)
  }

  lemma EntryPaired(k: Ident, iv: Interval, events: seq<string>, hash: Ident -> int)
    requires iv.start == iv.end
    requires EntryRecords(k, iv, events, hash).Ok?
    ensures Paired(EntryRecords(k, iv, events, hash).value, events)
  {
    var rs := EntryRecords(k, iv, events, hash).value;
    forall p | 0 <= p < |rs| / 2
      ensures PairAt(rs, p, events)
    {
      assert (2 * p) / 2 == p && (2 * p + 1) / 2 == p;
      assert (2 * p) % 2 == 0 && (2 * p + 1) % 2 == 1;
    }
  }

  lemma {:induction false} PairedAppend(a: seq<Record>, b: seq<Record>, events: seq<string>)
    requires Paired(a, events) && Paired(b, events)
    ensures Paired(a + b, events)
  {
    var ab := a + b;
    forall p | 0 <= p < |ab| / 2
      ensures PairAt(ab, p, events)
    {
      if 2 * p < |a| {
        assert ab[2 * p] == a[2 * p] && ab[2 * p + 1] == a[2 * p + 1];
        assert PairAt(a, p, events);
      } else {
        var q := p - |a| / 2;
        assert 2 * q == 2 * p - |a|;
        assert ab[2 * p] == b[2 * q] && ab[2 * p + 1] == b[2 * q + 1];
        assert PairAt(b, q, events);
      }
    }
  }

  // ---------------------------------------------------------------------
  // Putting it together

  /** Every entry of a timeline is a point. */
  predicate Points(tl: seq<Interval>) {
    forall i | 0 <= i < |tl| :: tl[i].start == tl[i].end
  }

  /** Every label of every entry is a listed name. */
  predicate AllListed(tl: seq<Interval>, events: seq<string>) {
    forall i | 0 <= i < |tl| :: forall j | 0 <= j < |tl[i].labels| :: Listed(tl[i].labels[j], events)
  }

  /** Every entry names at least one event. */
  predicate Labelled(tl: seq<Interval>) {
    forall i | 0 <= i < |tl| :: |tl[i].labels| > 0
  }

  /** The three entry-wise predicates, split into the first entry and the rest. */
  lemma EntryTail(tl: seq<Interval>, events: seq<string>)
    requires |tl| > 0
    ensures AllListed(tl, events) <==>
              (forall j | 0 <= j < |tl[0].labels| :: Listed(tl[0].labels[j], events)) && AllListed(tl[1..], events)
    ensures Labelled(tl) <==> |tl[0].labels| > 0 && Labelled(tl[1..])
    ensures Points(tl) <==> tl[0].start == tl[0].end && Points(tl[1..])
  {
    assert forall i | 0 < i < |tl| :: tl[i] == tl[1..][i - 1];
  }

  /** Reference: the records of a timeline's entries, one entry after the
      other, when every label is listed. */
  function TimelineRecords(k: Ident, tl: seq<Interval>, events: seq<string>, hash: Ident -> int): seq<Record>
    requires AllListed(tl, events)
    decreases |tl|
  {
    if |tl| == 0 then []
    else
      EntryTail(tl, events);
      EntryRecords(k, tl[0], events, hash).value + TimelineRecords(k, tl[1..], events, hash)
  }

  /** The records of a timeline of points form begin/end pairs. */
  lemma {:induction false} TimelinePaired(k: Ident, tl: seq<Interval>, events: seq<string>, hash: Ident -> int)
    ensures AllListed(tl, events) && Points(tl) ==> Paired(TimelineRecords(k, tl, events, hash), events)
    decreases |tl|
  {
    if |tl| > 0 && AllListed(tl, events) && Points(tl) {
      EntryTail(tl, events);
      EntryPaired(k, tl[0], events, hash);
      TimelinePaired(k, tl[1..], events, hash);
      PairedAppend(EntryRecords(k, tl[0], events, hash).value, TimelineRecords(k, tl[1..], events, hash), events);
    }
  }

  /** Whether the last record emitted carries a timestamp, as the
      `d[-1]['ts']` lookup needs. */
  predicate EndsTimed(d: seq<Record>) {
    |d| > 0 && d[|d| - 1].ts.Some?
  }

  /** Every `ts` lookup over `tl` finds a timestamp, given whether the
      records before it end with one. An entry with labels ends on its own
      end record and one without leaves the last record as it was, so only
      the first entry can fail the lookup. */
  predicate Stamped(timed: bool, tl: seq<Interval>) {
    timed || |tl| == 0 || |tl[0].labels| > 0
  }

  /** An entry's records end with a timestamp exactly when it has labels. */
  lemma EndsTimedAppend(d: seq<Record>, recs: seq<Record>, k: Ident, iv: Interval, events: seq<string>, hash: Ident -> int)
    requires EntryRecords(k, iv, events, hash) == Ok(recs)
    ensures EndsTimed(d + recs) == (EndsTimed(d) || |iv.labels| > 0)
  {
    if |recs| > 0 {
      assert (d + recs)[|d + recs| - 1] == recs[|recs| - 1];
    } else {
      assert d + recs == d;
    }
  }

  /** The loop over one buffer's entries: append the entry's records, then
      read the last record's `ts`, which raises when that record is
      metadata (an entry without labels before any begin/end record). */
  function EmitTimeline(d: seq<Record>, tl: seq<Interval>, k: Ident, events: seq<string>, hash: Ident -> int): (r: Result<seq<Record>>)
    ensures r.Ok? ==> AllListed(tl, events) && r.value == d + TimelineRecords(k, tl, events, hash)
    ensures r.Ok? ==> d <= r.value
    ensures r.Ok? && Points(tl) ==> Paired(r.value[|d|..], events)
    ensures r.Ok? <==> AllListed(tl, events) && Stamped(EndsTimed(d), tl)
    ensures AllListed(tl, events) && Labelled(tl) ==> r.Ok?
    ensures r.Ok? ==> EndsTimed(r.value) == (EndsTimed(d) || |tl| > 0)
    ensures r.Err? ==> r.error == LabelNotListed || r.error == MissingTimestamp
    decreases |tl|
  {
    if |tl| == 0 then
      assert d[|d|..] == [];
      Ok(d)
    else
      EntryTail(tl, events);
      var recs :- EntryRecords(k, tl[0], events, hash);
      var d' := d + recs;
      EndsTimedAppend(d, recs, k, tl[0], events, hash);
      if |d'| == 0 || d'[|d'| - 1].ts.None? then Err(MissingTimestamp)
      else
        var r := EmitTimeline(d', tl[1..], k, events, hash);
        EmitTimelineStep(d, recs, tl, k, events, hash, r);
        r
  }

  lemma EmitTimelineStep(d: seq<Record>, recs: seq<Record>, tl: seq<Interval>, k: Ident, events: seq<string>,
                         hash: Ident -> int, r: Result<seq<Record>>)
    requires |tl| > 0 && EntryRecords(k, tl[0], events, hash) == Ok(recs)
    requires r.Ok? ==> AllListed(tl[1..], events) && r.value == d + recs + TimelineRecords(k, tl[1..], events, hash)
    ensures r.Ok? ==> AllListed(tl, events) && r.value == d + TimelineRecords(k, tl, events, hash)
    ensures r.Ok? ==> d <= r.value
    ensures r.Ok? && Points(tl) ==> Paired(r.value[|d|..], events)
  {
    if r.Ok? {
      EntryTail(tl, events);
      assert TimelineRecords(k, tl, events, hash) == recs + TimelineRecords(k, tl[1..], events, hash);
      Appended(d, recs, TimelineRecords(k, tl[1..], events, hash), r.value);
      TimelinePaired(k, tl, events, hash);
    }
  }

  /** The entries a buffer contributes: decode, build the timeline and
      drop its trailing stalls. */
  function KeptEntries(words: seq<nat>, events: seq<string>): (r: Result<seq<Interval>>)
    ensures r.Ok? ==> Points(r.value)
  {
    var frames :- FramesOf(words, events);
    var tl :- ConstructTimeline(frames);
    Ok(TrimTrailingStalls(tl))
  }

  /** A buffer that decodes, whose timeline builds and whose kept entries
      name only listed events. */
  predicate BufferRenders(words: seq<nat>, events: seq<string>) {
    KeptEntries(words, events).Ok? && AllListed(KeptEntries(words, events).value, events)
  }

  /** A buffer that renders and has no kept entry without labels, so that
      no `ts` lookup can fail. */
  predicate BufferEmits(words: seq<nat>, events: seq<string>) {
    BufferRenders(words, events) && Labelled(KeptEntries(words, events).value)
  }

  /** Every buffer, in key order, has its words and renders. */
  predicate AllRender(order: seq<Ident>, data: map<Ident, seq<nat>>, events: seq<string>)
    decreases |order|
  {
    |order| == 0 || (order[0] in data && BufferRenders(data[order[0]], events) && AllRender(order[1..], data, events))
  }

  /** Every buffer, in key order, has its words and emits without a failed
      `ts` lookup. */
  predicate AllEmit(order: seq<Ident>, data: map<Ident, seq<nat>>, events: seq<string>)
    decreases |order|
  {
    |order| == 0 || (order[0] in data && BufferEmits(data[order[0]], events) && AllEmit(order[1..], data, events))
  }

  /** Every buffer, in key order, has its words, renders, and finds a
      timestamp at each lookup, given whether the records before it end
      with one; after a buffer with kept entries they always do. */
  predicate AllStamped(timed: bool, order: seq<Ident>, data: map<Ident, seq<nat>>, events: seq<string>)
    decreases |order|
  {
    |order| == 0 ||
    (&& order[0] in data
     && BufferRenders(data[order[0]], events)
     && Stamped(timed, KeptEntries(data[order[0]], events).value)
     && AllStamped(timed || |KeptEntries(data[order[0]], events).value| > 0, order[1..], data, events))
  }

  /** Reference: every buffer's slice records, buffer after buffer in key
      order, each buffer's being those of its kept entries. */
  function AllBufferRecords(order: seq<Ident>, data: map<Ident, seq<nat>>, events: seq<string>, hash: Ident -> int): seq<Record>
    requires AllRender(order, data, events)
    decreases |order|
  {
    if |order| == 0 then []
    else
      TimelineRecords(order[0], KeptEntries(data[order[0]], events).value, events, hash)
      + AllBufferRecords(order[1..], data, events, hash)
  }

  /** All buffers' slice records form begin/end pairs. */
  lemma {:induction false} BuffersPaired(order: seq<Ident>, data: map<Ident, seq<nat>>, events: seq<string>, hash: Ident -> int)
    ensures AllRender(order, data, events) ==> Paired(AllBufferRecords(order, data, events, hash), events)
    decreases |order|
  {
    if |order| > 0 && AllRender(order, data, events) {
      var kept := KeptEntries(data[order[0]], events).value;
      TimelinePaired(order[0], kept, events, hash);
      BuffersPaired(order[1..], data, events, hash);
      PairedAppend(TimelineRecords(order[0], kept, events, hash), AllBufferRecords(order[1..], data, events, hash), events);
    }
  }

  /** The second loop of `generate_perfetto_dict`, over the buffers in key
      order: decode, build the timeline, drop trailing stalls, emit. The
      first failure, in any buffer, is the failure of the whole call. */
  function EmitBuffers(d: seq<Record>, order: seq<Ident>, data: map<Ident, seq<nat>>, events: seq<string>,
                       hash: Ident -> int): (r: Result<seq<Record>>)
    requires forall i | 0 <= i < |order| :: order[i] in data
    ensures r.Ok? ==> AllRender(order, data, events) && r.value == d + AllBufferRecords(order, data, events, hash)
    ensures r.Ok? ==> d <= r.value && Paired(r.value[|d|..], events)
    ensures r.Ok? <==> AllStamped(EndsTimed(d), order, data, events)
    ensures AllEmit(order, data, events) ==> r.Ok?
    decreases |order|
  {
    if |order| == 0 then
      assert d[|d|..] == [];
      Ok(d)
    else
      var k := order[0];
      var kept :- KeptEntries(data[k], events);
      var d' :- EmitTimeline(d, kept, k, events, hash);
      var r := EmitBuffers(d', order[1..], data, events, hash);
      EmitBuffersStep(d, d', order, data, events, hash, r);
      r
  }

  lemma EmitBuffersStep(d: seq<Record>, d': seq<Record>, order: seq<Ident>, data: map<Ident, seq<nat>>,
                        events: seq<string>, hash: Ident -> int, r: Result<seq<Record>>)
    requires |order| > 0 && order[0] in data && BufferRenders(data[order[0]], events)
    requires d' == d + TimelineRecords(order[0], KeptEntries(data[order[0]], events).value, events, hash)
    requires r.Ok? ==> AllRender(order[1..], data, events) && r.value == d' + AllBufferRecords(order[1..], data, events, hash)
    ensures r.Ok? ==> AllRender(order, data, events) && r.value == d + AllBufferRecords(order, data, events, hash)
    ensures r.Ok? ==> d <= r.value && Paired(r.value[|d|..], events)
  {
    if r.Ok? {
      var first := TimelineRecords(order[0], KeptEntries(data[order[0]], events).value, events, hash);
      var rest := AllBufferRecords(order[1..], data, events, hash);
      assert AllBufferRecords(order, data, events, hash) == first + rest;
      Appended(d, first, rest, r.value);
      BuffersPaired(order, data, events, hash);
    }
  }

  /** `generate_perfetto_dict`: every buffer's metadata first, then every
      buffer's slices, in key order. */
  function GeneratePerfettoDict(b: Buffers, events: seq<string>, hash: Ident -> int): (r: Result<seq<Record>>)
    requires Valid(b)
    ensures r.Ok? ==> AllRender(b.order, b.data, events)
                      && r.value == MetadataRecords(b.order, events, hash) + AllBufferRecords(b.order, b.data, events, hash)
    ensures var m := |b.order| * (|events| + 1);
      r.Ok? ==> && |r.value| >= m
                && r.value[..m] == MetadataRecords(b.order, events, hash)
                && Paired(r.value[m..], events)
    ensures r.Ok? <==> AllStamped(false, b.order, b.data, events)
    ensures AllEmit(b.order, b.data, events) ==> r.Ok?
  {
    KeysPresent(b);
    var meta := MetadataRecords(b.order, events, hash);
    var r := EmitBuffers(meta, b.order, b.data, events, hash);
    PrefixTake(meta, r);
    r
  }

  lemma KeysPresent(b: Buffers)
    requires Valid(b)
    ensures forall i | 0 <= i < |b.order| :: b.order[i] in b.data
  {
    forall i | 0 <= i < |b.order|
      ensures b.order[i] in b.data
    {
      assert b.order[i] in set k | k in b.order;
    }
  }

  /** Records appended in two steps are the records appended at once. */
  lemma Appended(d: seq<Record>, a: seq<Record>, b: seq<Record>, all: seq<Record>)
    requires all == d + a + b
    ensures all == d + (a + b) && d <= all && all[|d|..] == a + b
  {
  }

  lemma PrefixTake(d: seq<Record>, r: Result<seq<Record>>)
    ensures r.Ok? && d <= r.value ==> r.value[..|d|] == d
  {
  }

  // ---------------------------------------------------------------------
  // Names

  lemma FirstSeparator(x: string, y: string, sep: char)
    requires sep !in x
    ensures (x + [sep] + y)[|x|] == sep
    ensures forall i | 0 <= i < |x| :: (x + [sep] + y)[i] != sep
  {
    forall i | 0 <= i < |x|
      ensures (x + [sep] + y)[i] != sep
    {
      assert (x + [sep] + y)[i] == x[i];
    }
  }

  lemma StripPrefix(p: string, x: string, y: string)
    requires p + x == p + y
    ensures x == y
  {
    assert x == (p + x)[|p|..];
    assert y == (p + y)[|p|..];
  }

  /** Splitting at the first occurrence of a separator both strings lack
      before it. */
  lemma SplitAtSeparator(x1: string, y1: string, x2: string, y2: string, sep: char)
    requires sep !in x1 && sep !in x2
    requires x1 + [sep] + y1 == x2 + [sep] + y2
    ensures x1 == x2 && y1 == y2
  {
    var s := x1 + [sep] + y1;
    FirstSeparator(x1, y1, sep);
    FirstSeparator(x2, y2, sep);
    assert |x1| == |x2|;
    assert x1 == s[..|x1|] == x2;
    assert y1 == s[|x1| + 1..] == y2;
  }

  lemma RenderingsEqual(m: nat, n: nat)
    requires ToDecimal(m) == ToDecimal(n)
    ensures m == n
  {
    DecimalRoundTrip(m);
    DecimalRoundTrip(n);
  }

  function TypePrefix(t: PacketType): string {
    "PacketType." + TypeName(t)
  }

  function LocationSuffix(row: nat, col: nat): string {
    "trace for tile (" + ToDecimal(row) + ", " + ToDecimal(col) + ")"
  }

  lemma TitleParts(k: Ident)
    ensures ProcessTitle(k) == TypePrefix(k.ptype) + [' '] + LocationSuffix(k.loc.0, k.loc.1)
    ensures ' ' !in TypePrefix(k.ptype)
  {
    assert " trace for tile (" == [' '] + "trace for tile (";
    Regroup(TypePrefix(k.ptype), "trace for tile (", ToDecimal(k.loc.0), ", ", ToDecimal(k.loc.1), ")");
    NoSpaceInPrefix(k.ptype);
  }

  lemma Regroup(p: string, s: string, r: string, q: string, c: string, e: string)
    ensures p + ([' '] + s) + r + q + c + e == p + [' '] + (s + r + q + c + e)
  {
  }

  lemma NoSpaceInPrefix(t: PacketType)
    ensures ' ' !in TypePrefix(t)
  {
    match t
    case Core =>
    case Mem =>
    case Intfc =>
    case MemTile =>
  }

  lemma TypePrefixInjective(t: PacketType, u: PacketType)
    requires TypePrefix(t) == TypePrefix(u)
    ensures t == u
  {
    assert TypeName(t) == TypePrefix(t)[11..];
    assert TypeName(u) == TypePrefix(u)[11..];
  }

  lemma LocationSuffixShape(row: nat, col: nat)
    ensures LocationSuffix(row, col)
            == "trace for tile (" + (ToDecimal(row) + [','] + ([' '] + (ToDecimal(col) + [')'])))
  {
  }

  lemma LocationSuffixInjective(r1: nat, c1: nat, r2: nat, c2: nat)
    requires LocationSuffix(r1, c1) == LocationSuffix(r2, c2)
    ensures r1 == r2 && c1 == c2
  {
    var ra, ca := ToDecimal(r1), ToDecimal(c1);
    var rb, cb := ToDecimal(r2), ToDecimal(c2);
    LocationSuffixShape(r1, c1);
    LocationSuffixShape(r2, c2);
    StripPrefix("trace for tile (", ra + [','] + ([' '] + (ca + [')'])), rb + [','] + ([' '] + (cb + [')'])));
    DecimalHasNoSeparator(r1);
    DecimalHasNoSeparator(r2);
    SplitAtSeparator(ra, [' '] + (ca + [')']), rb, [' '] + (cb + [')']), ',');
    StripPrefix([' '], ca + [')'], cb + [')']);
    assert ca == (ca + [')'])[..|ca|];
    assert cb == (cb + [')'])[..|cb|];
    RenderingsEqual(r1, r2);
    RenderingsEqual(c1, c2);
  }

  /** Process names tell apart tiles and packet types: two identities with
      the same name differ at most in their source id. */
  lemma TitleDeterminesTile(a: Ident, b: Ident)
    requires ProcessTitle(a) == ProcessTitle(b)
    ensures a.loc == b.loc && a.ptype == b.ptype
  {
    TitleParts(a);
    TitleParts(b);
    SplitAtSeparator(TypePrefix(a.ptype), LocationSuffix(a.loc.0, a.loc.1),
                     TypePrefix(b.ptype), LocationSuffix(b.loc.0, b.loc.1), ' ');
    TypePrefixInjective(a.ptype, b.ptype);
    LocationSuffixInjective(a.loc.0, a.loc.1, b.loc.0, b.loc.1);
  }
}
