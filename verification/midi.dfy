/** The merged MIDI message stream the converter walks, and the tick
    accounting every scanner shares. A stream is the time-ordered list
    `mido.merge_tracks` yields: each message carries the delta in ticks
    from the message before it, and a scanner adds every delta to its
    running absolute tick before it looks at the message. */
module Midi {
  import opened Optional
  import opened Xf

  type Channel = c: int | 0 <= c < 16
  type Data7 = d: int | 0 <= d < 128

  /** The three text meta events the chord scanner reads. */
  datatype TextKind = TextEvent | Lyrics | Marker

  /** The messages the converter distinguishes. Meta messages are the
      sequencer-specific, text, track-name and other meta events; channel
      messages carry a channel; `SystemMessage` stands for the rest
      (system exclusive, clock and the like), which have no channel. */
  datatype Msg =
    | SequencerSpecific(data: seq<Byte>)
    | Text(kind: TextKind, text: string)
    | TrackName(name: string)
    | OtherMeta
    | NoteOn(channel: Channel, note: Data7, velocity: Data7)
    | NoteOff(channel: Channel, note: Data7, velocity: Data7)
    | OtherChannelMessage(channel: Channel)
    | SystemMessage

  predicate IsMeta(m: Msg) {
    m.SequencerSpecific? || m.Text? || m.TrackName? || m.OtherMeta?
  }

  /** A message with its delta time in ticks. */
  datatype Event = Event(delta: nat, msg: Msg)

  /** The absolute tick reached after the last event of `evs`: the sum of
      all deltas, whatever the messages are. */
  function TotalTicks(evs: seq<Event>): nat {
    if evs == [] then 0 else TotalTicks(evs[..|evs| - 1]) + evs[|evs| - 1].delta
  }

  /** A tick as an offset in quarter notes (`ticks / ticks_per_quarter`),
      kept as an exact quotient. */
  function Quarters(tick: int, tpq: nat): real
    requires tpq > 0
  {
    tick as real / tpq as real
  }

  lemma QuartersMonotone(a: int, b: int, tpq: nat)
    requires tpq > 0 && a <= b
    ensures Quarters(a, tpq) <= Quarters(b, tpq)
    ensures 0 <= a ==> 0.0 <= Quarters(a, tpq)
  {
  }

  /** Offsets add up: the quarters of two spans are the quarters of both. */
  lemma QuartersAdd(a: int, b: int, tpq: nat)
    requires tpq > 0
    ensures Quarters(a, tpq) + Quarters(b, tpq) == Quarters(a + b, tpq)
  {
    var d := tpq as real;
    assert a as real / d + b as real / d == (a as real + b as real) / d;
  }

  lemma {:induction false} TotalTicksAppend(a: seq<Event>, b: seq<Event>)
    ensures TotalTicks(a + b) == TotalTicks(a) + TotalTicks(b)
    decreases |b|
  {
    if b == [] {
      assert a + b == a;
    } else {
      var b' := b[..|b| - 1];
      assert (a + b)[..|a + b| - 1] == a + b';
      TotalTicksAppend(a, b');
    }
  }

  /** The ticks of a stream never decrease along it. */
  lemma TotalTicksPrefix(evs: seq<Event>, i: nat)
    requires i <= |evs|
    ensures TotalTicks(evs[..i]) <= TotalTicks(evs)
  {
    assert evs == evs[..i] + evs[i..];
    TotalTicksAppend(evs[..i], evs[i..]);
  }

  // ---------------------------------------------------------------------------
  // Scanning for stamped items

  /** An item found in the stream, at the absolute tick of its message. */
  datatype Stamped<T> = Stamped(tick: nat, item: T)

  function Ticks<T>(xs: seq<Stamped<T>>): seq<nat> {
    seq(|xs|, k requires 0 <= k < |xs| => xs[k].tick)
  }

  predicate Sorted(ts: seq<nat>) {
    forall i, j :: 0 <= i < j < |ts| ==> ts[i] <= ts[j]
  }

  /** The stamps contributed by one message seen at tick `t`. */
  function Emit<T>(t: nat, found: Option<T>): seq<Stamped<T>> {
    match found
    case None => []
    case Some(x) => [Stamped(t, x)]
  }

  /** The scanning loop: add the delta, then ask `pick` whether the message
      yields an item, and append it with the current tick. */
  function Scan<T>(evs: seq<Event>, tick: nat, acc: seq<Stamped<T>>, pick: Msg -> Option<T>): (r: seq<Stamped<T>>)
    ensures |acc| <= |r| && r[..|acc|] == acc
    ensures forall k :: |acc| <= k < |r| ==> tick <= r[k].tick <= tick + TotalTicks(evs)
    decreases |evs|
  {
    if evs == [] then acc
    else
      var t := tick + evs[0].delta;
      TotalTicksAppend([evs[0]], evs[1..]);
      assert [evs[0]] + evs[1..] == evs;
      assert [evs[0]][..0] == [];
      var r := Scan(evs[1..], t, acc + Emit(t, pick(evs[0].msg)), pick);
      assert (acc + Emit(t, pick(evs[0].msg)))[..|acc|] == acc;
      r
  }

  /** Reference definition: the item of the message at index `i` is stamped
      with the sum of the deltas up to and including that message. */
  function Stamps<T>(evs: seq<Event>, pick: Msg -> Option<T>): seq<Stamped<T>> {
    if evs == [] then []
    else Stamps(evs[..|evs| - 1], pick) + Emit(TotalTicks(evs), pick(evs[|evs| - 1].msg))
  }

  /** Running the loop over the rest of a stream, from the state the loop
      reaches after a prefix, gives the reference stamps of the whole. */
  lemma {:induction false} ScanResumes<T>(pre: seq<Event>, post: seq<Event>, pick: Msg -> Option<T>)
    ensures Scan(post, TotalTicks(pre), Stamps(pre, pick), pick) == Stamps(pre + post, pick)
    decreases |post|
  {
    if post == [] {
      assert pre + post == pre;
    } else {
      var e := post[0];
      var pre' := pre + [e];
      assert pre' + post[1..] == pre + post;
      assert pre'[..|pre'| - 1] == pre;
      assert TotalTicks(pre') == TotalTicks(pre) + e.delta;
      assert Stamps(pre', pick) == Stamps(pre, pick) + Emit(TotalTicks(pre'), pick(e.msg));
      ScanResumes(pre', post[1..], pick);
    }
  }

  /** The scanning loop started at tick 0 computes the reference stamps. */
  lemma ScanIsStamps<T>(evs: seq<Event>, pick: Msg -> Option<T>)
    ensures Scan(evs, 0, [], pick) == Stamps(evs, pick)
  {
    ScanResumes([], evs, pick);
    assert [] + evs == evs;
  }

  /** Stamps come out in stream order, so their ticks never decrease, and
      none lies beyond the end of the stream. */
  lemma {:induction false} StampsSorted<T>(evs: seq<Event>, pick: Msg -> Option<T>)
    ensures Sorted(Ticks(Stamps(evs, pick)))
    ensures forall k :: 0 <= k < |Stamps(evs, pick)| ==> Stamps(evs, pick)[k].tick <= TotalTicks(evs)
    decreases |evs|
  {
    if evs != [] {
      var init := evs[..|evs| - 1];
      StampsSorted(init, pick);
      var a := Stamps(init, pick);
      var b := Emit(TotalTicks(evs), pick(evs[|evs| - 1].msg));
      assert Stamps(evs, pick) == a + b;
      assert forall k :: 0 <= k < |a| ==> a[k].tick <= TotalTicks(init) <= TotalTicks(evs);
      assert forall k :: 0 <= k < |a + b| ==> (a + b)[k].tick <= TotalTicks(evs);
      forall i, j | 0 <= i < j < |a + b|
        ensures Ticks(a + b)[i] <= Ticks(a + b)[j]
      {
        if j < |a| {
          assert Ticks(a)[i] <= Ticks(a)[j];
        }
      }
    }
  }

  /** A property every item `pick` can yield holds of every stamp. */
  lemma {:induction false} StampsKeep<T>(evs: seq<Event>, pick: Msg -> Option<T>, p: T -> bool)
    requires forall m :: pick(m).Some? ==> p(pick(m).value)
    ensures forall k :: 0 <= k < |Stamps(evs, pick)| ==> p(Stamps(evs, pick)[k].item)
    decreases |evs|
  {
    if evs != [] {
      var init := evs[..|evs| - 1];
      StampsKeep(init, pick, p);
      var a: seq<Stamped<T>> := Stamps(init, pick);
      var b: seq<Stamped<T>> := Emit(TotalTicks(evs), pick(evs[|evs| - 1].msg));
      assert Stamps(evs, pick) == a + b;
      forall k | 0 <= k < |a + b| ensures p((a + b)[k].item) {
        if k < |a| {
          assert (a + b)[k] == a[k];
        }
      }
    }
  }

  /** A message that yields an item is stamped with the ticks of the stream
      up to it: the stamps of a prefix ending at that message end with it. */
  lemma StampOfMessage<T>(evs: seq<Event>, i: nat, pick: Msg -> Option<T>)
    requires i < |evs| && pick(evs[i].msg).Some?
    ensures var s := Stamps(evs[..i + 1], pick);
      |s| > 0 && s[|s| - 1] == Stamped(TotalTicks(evs[..i + 1]), pick(evs[i].msg).value)
  {
    assert evs[..i + 1][..i] == evs[..i];
  }

  /** Messages that yield nothing contribute no stamps, but their deltas
      still move every later stamp. */
  lemma {:induction false} SilentPrefix<T>(pre: seq<Event>, post: seq<Event>, pick: Msg -> Option<T>)
    requires forall k :: 0 <= k < |pre| ==> pick(pre[k].msg).None?
    ensures Stamps(pre, pick) == []
    ensures Stamps(pre + post, pick) == Scan(post, TotalTicks(pre), [], pick)
    decreases |pre|
  {
    if pre != [] {
      SilentPrefix(pre[..|pre| - 1], [], pick);
    }
    ScanResumes(pre, post, pick);
  }
}
