/** The melody extractor: one pass over the merged stream pairing each
    channel-0 note-on with the next release of the same pitch. Pending
    onsets are kept per pitch, a second note-on for a pending pitch
    replaces the earlier onset, a release with nothing pending is ignored,
    and onsets never released produce no note. */
module Melody {
  import opened Optional
  import opened Midi

  /** A pending onset: the absolute tick of the note-on and its velocity. */
  datatype Onset = Onset(start: nat, velocity: Data7)

  /** An extracted note: pitch, offset and length in quarter notes. */
  datatype Note = Note(pitch: Data7, offset: real, duration: real)

  /** The loop state: absolute tick, pending onsets by pitch, notes so far. */
  datatype State = State(tick: nat, open: map<Data7, Onset>, notes: seq<Note>)

  const Start: State := State(0, map[], [])

  /** A channel-0 note-on with a positive velocity. */
  predicate Presses(m: Msg) {
    m.NoteOn? && m.channel == 0 && m.velocity > 0
  }

  /** A channel-0 note-off, or a channel-0 note-on with velocity 0. */
  predicate Releases(m: Msg) {
    (m.NoteOff? && m.channel == 0) || (m.NoteOn? && m.channel == 0 && m.velocity == 0)
  }

  /** The message presses or releases pitch `p` on channel 0. */
  predicate Touches(m: Msg, p: Data7) {
    (Presses(m) || Releases(m)) && m.note == p
  }

  /** The note a release at tick `t` closes, given its onset. */
  function Closed(p: Data7, o: Onset, t: nat, tpq: nat): Note
    requires tpq > 0
  {
    Note(p, Quarters(o.start, tpq), Quarters(t - o.start, tpq))
  }

  /** One iteration of the loop. Meta messages, messages without a channel
      and messages on other channels only move the tick. */
  function Step(s: State, e: Event, tpq: nat): (r: State)
    requires tpq > 0
    ensures r.tick == s.tick + e.delta
    ensures !Presses(e.msg) && !Releases(e.msg) ==> r == s.(tick := r.tick)
    ensures Presses(e.msg) ==> r.notes == s.notes
  {
    var t := s.tick + e.delta;
    var m := e.msg;
    if IsMeta(m) then s.(tick := t)
    else if Presses(m) then State(t, s.open[m.note := Onset(t, m.velocity)], s.notes)
    else if Releases(m) then
      if m.note in s.open then
        State(t, s.open - {m.note}, s.notes + [Closed(m.note, s.open[m.note], t, tpq)])
      else s.(tick := t)
    else s.(tick := t)
  }

  /** The loop over a stream, from state `s`. */
  function Run(evs: seq<Event>, s: State, tpq: nat): State
    requires tpq > 0
    decreases |evs|
  {
    if evs == [] then s else Run(evs[1..], Step(s, evs[0], tpq), tpq)
  }

  /** The melody of a stream. */
  function Extract(evs: seq<Event>, tpq: nat): seq<Note>
    requires tpq > 0
  {
    Run(evs, Start, tpq).notes
  }

  // ---------------------------------------------------------------------------
  // Reference definition, read from the end of the stream

  /** The onset of pitch `p` still pending after `evs`: that of the last
      press of `p`, unless a release of `p` came after it. */
  function Pending(evs: seq<Event>, p: Data7): (r: Option<Onset>)
    ensures r.Some? ==> r.value.start <= TotalTicks(evs)
  {
    if evs == [] then None
    else
      var m := evs[|evs| - 1].msg;
      var init := evs[..|evs| - 1];
      if Presses(m) && m.note == p then Some(Onset(TotalTicks(evs), m.velocity))
      else if Releases(m) && m.note == p then None
      else Pending(init, p)
  }

  /** The notes of `evs`: one for each release that finds its pitch pending,
      from that onset to the release. */
  function Notes(evs: seq<Event>, tpq: nat): seq<Note>
    requires tpq > 0
  {
    if evs == [] then []
    else
      var m := evs[|evs| - 1].msg;
      var init := evs[..|evs| - 1];
      if Releases(m) && Pending(init, m.note).Some? then
        Notes(init, tpq) + [Closed(m.note, Pending(init, m.note).value, TotalTicks(evs), tpq)]
      else Notes(init, tpq)
  }

  /** The loop state after `evs` is the one the reference describes. */
  predicate Agrees(s: State, evs: seq<Event>, tpq: nat)
    requires tpq > 0
  {
    && s.tick == TotalTicks(evs)
    && s.notes == Notes(evs, tpq)
    && forall p: Data7 :: Pending(evs, p) == (if p in s.open then Some(s.open[p]) else None)
  }

  lemma {:induction false} RunSnoc(evs: seq<Event>, e: Event, s: State, tpq: nat)
    requires tpq > 0
    ensures Run(evs + [e], s, tpq) == Step(Run(evs, s, tpq), e, tpq)
    decreases |evs|
  {
    if evs == [] {
      assert evs + [e] == [e];
      assert [e][1..] == [];
    } else {
      assert (evs + [e])[1..] == evs[1..] + [e];
      RunSnoc(evs[1..], e, Step(s, evs[0], tpq), tpq);
    }
  }

  /** The loop computes the reference: after any stream its tick is the sum
      of the deltas, its pending map holds exactly the pending onsets, and
      its notes are the reference notes. */
  lemma {:induction false} RunAgrees(evs: seq<Event>, tpq: nat)
    requires tpq > 0
    ensures Agrees(Run(evs, Start, tpq), evs, tpq)
    decreases |evs|
  {
    if evs != [] {
      var init := evs[..|evs| - 1];
      var e := evs[|evs| - 1];
      assert init + [e] == evs;
      RunAgrees(init, tpq);
      RunSnoc(init, e, Start, tpq);
      var s := Run(init, Start, tpq);
      var r := Step(s, e, tpq);
      assert r.tick == TotalTicks(evs);
      forall p: Data7 ensures Pending(evs, p) == (if p in r.open then Some(r.open[p]) else None) {
        assert Pending(init, p) == (if p in s.open then Some(s.open[p]) else None);
      }
      var m := e.msg;
      if Releases(m) {
        assert Pending(init, m.note) == (if m.note in s.open then Some(s.open[m.note]) else None);
      }
    }
  }

  /** The extracted melody is the reference melody. */
  lemma ExtractIsNotes(evs: seq<Event>, tpq: nat)
    requires tpq > 0
    ensures Extract(evs, tpq) == Notes(evs, tpq)
  {
    RunAgrees(evs, tpq);
  }

  // ---------------------------------------------------------------------------
  // Pairing

  /** Events that neither press nor release `p` leave its pending onset. */
  lemma {:induction false} PendingUntouched(pre: seq<Event>, mid: seq<Event>, p: Data7)
    requires forall k :: 0 <= k < |mid| ==> !Touches(mid[k].msg, p)
    ensures Pending(pre + mid, p) == Pending(pre, p)
    decreases |mid|
  {
    if mid == [] {
      assert pre + mid == pre;
    } else {
      var mid' := mid[..|mid| - 1];
      assert (pre + mid)[..|pre + mid| - 1] == pre + mid';
      assert (pre + mid)[|pre + mid| - 1] == mid[|mid| - 1];
      PendingUntouched(pre, mid', p);
    }
  }

  /** A press of `p`, events that leave `p` alone, then a release of `p`:
      the release appends the note from the press to the release, whatever
      came before (an earlier pending onset of `p` is replaced). */
  lemma NotePaired(pre: seq<Event>, on: Event, mid: seq<Event>, off: Event, tpq: nat)
    requires tpq > 0
    requires Presses(on.msg) && Releases(off.msg) && on.msg.note == off.msg.note
    requires forall k :: 0 <= k < |mid| ==> !Touches(mid[k].msg, on.msg.note)
    ensures var held := pre + [on] + mid;
      var s, e := TotalTicks(pre + [on]), TotalTicks(held + [off]);
      Extract(held + [off], tpq) ==
        Extract(held, tpq) + [Note(on.msg.note, Quarters(s, tpq), Quarters(e - s, tpq))]
  {
    var p := on.msg.note;
    var held := pre + [on] + mid;
    var all := held + [off];
    assert (pre + [on])[..|pre + [on]| - 1] == pre;
    PendingUntouched(pre + [on], mid, p);
    assert all[..|all| - 1] == held;
    ExtractIsNotes(all, tpq);
    ExtractIsNotes(held, tpq);
  }

  /** Once `p` is no longer released on channel 0, no further note of `p`
      is extracted: the notes of `pre` stay as they were, and every note
      added while `post` runs has another pitch. An onset of `p` still
      pending at the end, however many notes of `p` came before it, is
      dropped. */
  lemma {:induction false} UnreleasedDropped(pre: seq<Event>, post: seq<Event>, p: Data7, tpq: nat)
    requires tpq > 0
    requires forall k :: 0 <= k < |post| ==> !(Releases(post[k].msg) && post[k].msg.note == p)
    ensures var ns := Notes(pre + post, tpq);
      && Notes(pre, tpq) <= ns
      && forall k :: |Notes(pre, tpq)| <= k < |ns| ==> ns[k].pitch != p
    decreases |post|
  {
    if post == [] {
      assert pre + post == pre;
    } else {
      var post' := post[..|post| - 1];
      var all := pre + post;
      assert all[..|all| - 1] == pre + post';
      assert all[|all| - 1] == post[|post| - 1];
      UnreleasedDropped(pre, post', p, tpq);
    }
  }

  /** Every extracted note starts at a non-negative offset, and has a
      non-negative duration, and ends no later than the stream. */
  lemma {:induction false} NotesWellFormed(evs: seq<Event>, tpq: nat)
    requires tpq > 0
    ensures forall k :: 0 <= k < |Notes(evs, tpq)| ==>
      && 0.0 <= Notes(evs, tpq)[k].offset
      && 0.0 <= Notes(evs, tpq)[k].duration
      && Notes(evs, tpq)[k].offset + Notes(evs, tpq)[k].duration <= Quarters(TotalTicks(evs), tpq)
    decreases |evs|
  {
    if evs != [] {
      var init := evs[..|evs| - 1];
      NotesWellFormed(init, tpq);
      TotalTicksPrefix(evs, |evs| - 1);
      var m := evs[|evs| - 1].msg;
      if Releases(m) && Pending(init, m.note).Some? {
        var o := Pending(init, m.note).value;
        var t := TotalTicks(evs);
        ClosedWellFormed(m.note, o, t, tpq);
      }
      forall k | 0 <= k < |Notes(init, tpq)|
        ensures Notes(init, tpq)[k].offset + Notes(init, tpq)[k].duration <= Quarters(TotalTicks(evs), tpq)
      {
        QuartersMonotone(TotalTicks(init), TotalTicks(evs), tpq);
      }
    }
  }

  /** A note closed at tick `t` from an onset no later than `t` starts at a
      non-negative offset, lasts a non-negative time and ends at `t`. */
  lemma ClosedWellFormed(p: Data7, o: Onset, t: nat, tpq: nat)
    requires tpq > 0 && o.start <= t
    ensures var n := Closed(p, o, t, tpq);
      0.0 <= n.offset && 0.0 <= n.duration && n.offset + n.duration == Quarters(t, tpq)
  {
    QuartersMonotone(0, o.start, tpq);
    QuartersMonotone(0, t - o.start, tpq);
    QuartersAdd(o.start, t - o.start, tpq);
  }

  /** Without a release nothing is extracted. */
  lemma {:induction false} NoReleaseNoNotes(evs: seq<Event>, tpq: nat)
    requires tpq > 0
    requires forall k :: 0 <= k < |evs| ==> !Releases(evs[k].msg)
    ensures Notes(evs, tpq) == []
    decreases |evs|
  {
    if evs != [] {
      NoReleaseNoNotes(evs[..|evs| - 1], tpq);
    }
  }

  /** The first note of a stream: a press, events without any release, and
      the release of the pressed pitch give exactly one note. */
  lemma LoneNote(on: Event, mid: seq<Event>, off: Event, tpq: nat)
    requires tpq > 0
    requires Presses(on.msg) && Releases(off.msg) && on.msg.note == off.msg.note
    requires forall k :: 0 <= k < |mid| ==> !Releases(mid[k].msg) && !Presses(mid[k].msg)
    ensures Extract([on] + mid + [off], tpq)
      == [Note(on.msg.note, Quarters(on.delta, tpq), Quarters(TotalTicks(mid) + off.delta, tpq))]
  {
    NotePaired([], on, mid, off, tpq);
    LoneNoteParts(on, mid, off, tpq);
    assert [] + [on] + mid == [on] + mid;
  }

  lemma LoneNoteParts(on: Event, mid: seq<Event>, off: Event, tpq: nat)
    requires tpq > 0 && Presses(on.msg)
    requires forall k :: 0 <= k < |mid| ==> !Releases(mid[k].msg)
    ensures Extract([on] + mid, tpq) == []
    ensures TotalTicks([on] + mid + [off]) == on.delta + TotalTicks(mid) + off.delta
  {
    assert [] + [on] == [on];
    HeldSilent(on, mid, tpq);
    LoneTicks(on, mid, off);
  }

  lemma HeldSilent(on: Event, mid: seq<Event>, tpq: nat)
    requires tpq > 0 && Presses(on.msg)
    requires forall k :: 0 <= k < |mid| ==> !Releases(mid[k].msg)
    ensures Extract([on] + mid, tpq) == []
  {
    var held := [on] + mid;
    forall k | 0 <= k < |held| ensures !Releases(held[k].msg) {
      if k > 0 {
        assert held[k] == mid[k - 1];
      }
    }
    NoReleaseNoNotes(held, tpq);
    ExtractIsNotes(held, tpq);
  }

  lemma LoneTicks(on: Event, mid: seq<Event>, off: Event)
    ensures TotalTicks([on]) == on.delta
    ensures TotalTicks([on] + mid + [off]) == on.delta + TotalTicks(mid) + off.delta
  {
    assert [on][..0] == [] && [off][..0] == [];
    TotalTicksAppend([on], mid);
    TotalTicksAppend([on] + mid, [off]);
  }

  /** A single press and release, one quarter note apart at 480 ticks per
      quarter, with a message on another channel in between. */
  lemma SingleNote()
    ensures Extract([Event(0, NoteOn(0, 60, 100)), Event(240, NoteOn(1, 64, 90)), Event(240, NoteOff(0, 60, 0))], 480)
      == [Note(60, 0.0, 1.0)]
  {
    var on := Event(0, NoteOn(0, 60, 100));
    var mid := [Event(240, NoteOn(1, 64, 90))];
    var off := Event(240, NoteOff(0, 60, 0));
    LoneNote(on, mid, off, 480);
    assert mid[..0] == [];
    assert [on] + mid + [off] == [Event(0, NoteOn(0, 60, 100)), Event(240, NoteOn(1, 64, 90)), Event(240, NoteOff(0, 60, 0))];
  }
}
