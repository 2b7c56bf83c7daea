/** The chord and rehearsal-mark scanners: one pass over the merged stream
    each, turning XF meta events (and, for chords, text meta events) into
    items stamped with their absolute tick. */
module Scanners {
  import opened Optional
  import opened Text
  import opened Xf
  import opened Midi
  import opened Normalizer

  // ---------------------------------------------------------------------------
  // Chords

  /** What the scanner needs from outside its own code: the regular
      expression that cuts a chord-like candidate out of a text event,
      whether the chord library accepts a candidate, whether building a
      chord symbol from a normalised figure succeeds and gives a truthy
      object, and whether the library's no-chord object is truthy. */
  datatype ChordLibrary = ChordLibrary(
    candidate: string -> Option<string>,
    accepts: string -> bool,
    builds: string -> bool,
    noChordTruthy: bool)

  /** The chord objects the scanner appends. */
  datatype Harmony = NoChord | ChordSymbol(figure: string)

  /** A chord object with its offset in quarter notes. */
  datatype PlacedChord = PlacedChord(offset: real, harmony: Harmony)

  /** The payload bytes after the header and ID, without `0x7F` fillers. */
  function DropFiller(s: seq<Byte>): (r: seq<Byte>)
    ensures |r| <= |s|
    ensures forall b :: b in r <==> b in s && b != Filler
  {
    if s == [] then []
    else (if s[0] == Filler then [] else [s[0]]) + DropFiller(s[1..])
  }

  /** The filter keeps every other byte as often as it occurs, and no
      filler. */
  lemma {:induction false} DropFillerCounts(s: seq<Byte>)
    ensures multiset(DropFiller(s)) == multiset(s)[Filler := 0]
    decreases |s|
  {
    if s != [] {
      DropFillerCounts(s[1..]);
      assert s == [s[0]] + s[1..];
    }
  }

  /** The filter works byte by byte: filtering a concatenation filters each
      part and keeps them in order, so the decoder reads root, type and bass
      in the order they were sent. */
  lemma {:induction false} DropFillerAppend(a: seq<Byte>, b: seq<Byte>)
    ensures DropFiller(a + b) == DropFiller(a) + DropFiller(b)
    decreases |a|
  {
    if a != [] {
      assert (a + b)[0] == a[0] && (a + b)[1..] == a[1..] + b;
      DropFillerAppend(a[1..], b);
    } else {
      assert a + b == b;
    }
  }

  /** The chord text a message carries, before normalisation: the decoded
      XF chord of a chord event with a non-empty payload, or the candidate
      a non-blank text, lyric or marker event yields when the library
      accepts it. */
  function ChordText(lib: ChordLibrary, m: Msg): Option<string> {
    match m
    case SequencerSpecific(data) =>
      if IsXfEvent(data, ChordId) then
        var bytes := DropFiller(data[3..]);
        if bytes == [] then None else DecodeChord(bytes)
      else None
    case Text(_, text) => TextCandidate(lib, text)
    case _ => None
  }

  /** The chord text of a text, lyric or marker event: its stripped text,
      when not blank, is searched for a candidate, which counts only when
      the library accepts it. */
  function TextCandidate(lib: ChordLibrary, text: string): Option<string> {
    var t := Strip(text);
    if t == "" then None
    else
      match lib.candidate(t)
      case None => None
      case Some(c) => if lib.accepts(c) then Some(c) else None
  }

  /** The chord object a message contributes: "N.C." becomes the no-chord
      object, any other non-empty text is normalised and built; an object
      the library reports as falsy, or fails to build, is dropped. */
  function ChordOf(lib: ChordLibrary, m: Msg): (r: Option<Harmony>)
    ensures r == Some(NoChord) ==> ChordText(lib, m) == Some("N.C.") && lib.noChordTruthy
    ensures r.Some? && r.value.ChordSymbol? ==>
      ChordText(lib, m).Some? && ChordText(lib, m).value !in {"", "N.C."} &&
      r.value.figure == Normalize(ChordText(lib, m).value) && lib.builds(r.value.figure)
    ensures (ChordText(lib, m).Some? && ChordText(lib, m).value !in {"", "N.C."} &&
             lib.builds(Normalize(ChordText(lib, m).value))) ==> r.Some?
  {
    match ChordText(lib, m)
    case None => None
    case Some(t) =>
      if t == "" then None
      else if t == "N.C." then (if lib.noChordTruthy then Some(NoChord) else None)
      else
        var f := Normalize(t);
        if lib.builds(f) then Some(ChordSymbol(f)) else None
  }

  function Place(xs: seq<Stamped<Harmony>>, tpq: nat): (r: seq<PlacedChord>)
    requires tpq > 0
    ensures |r| == |xs|
    ensures forall k :: 0 <= k < |xs| ==> r[k] == PlacedChord(Quarters(xs[k].tick, tpq), xs[k].item)
  {
    seq(|xs|, k requires 0 <= k < |xs| => PlacedChord(Quarters(xs[k].tick, tpq), xs[k].item))
  }

  /** `ChordOf` as the scanner's per-message step. */
  function ChordPick(lib: ChordLibrary): Msg -> Option<Harmony> {
    m => ChordOf(lib, m)
  }

  /** The chord list of a stream. */
  function ScanChords(lib: ChordLibrary, evs: seq<Event>, tpq: nat): seq<PlacedChord>
    requires tpq > 0
  {
    Place(Scan(evs, 0, [], ChordPick(lib)), tpq)
  }

  /** Each chord sits at the ticks of the stream up to its message, in
      quarter notes; chords keep stream order, so offsets never decrease
      and none lies beyond the end of the stream. */
  lemma ChordsInStreamOrder(lib: ChordLibrary, evs: seq<Event>, tpq: nat)
    requires tpq > 0
    ensures ScanChords(lib, evs, tpq) == Place(Stamps(evs, ChordPick(lib)), tpq)
    ensures var cs := ScanChords(lib, evs, tpq);
      && (forall i, j :: 0 <= i < j < |cs| ==> cs[i].offset <= cs[j].offset)
      && (forall k :: 0 <= k < |cs| ==> 0.0 <= cs[k].offset <= Quarters(TotalTicks(evs), tpq))
  {
    var pick := ChordPick(lib);
    ScanIsStamps(evs, pick);
    StampsSorted(evs, pick);
    var s := Stamps(evs, pick);
    var cs := ScanChords(lib, evs, tpq);
    forall i, j | 0 <= i < j < |cs| ensures cs[i].offset <= cs[j].offset {
      assert Ticks(s)[i] <= Ticks(s)[j];
      QuartersMonotone(s[i].tick, s[j].tick, tpq);
    }
    forall k | 0 <= k < |cs| ensures 0.0 <= cs[k].offset <= Quarters(TotalTicks(evs), tpq) {
      QuartersMonotone(s[k].tick, TotalTicks(evs), tpq);
    }
  }

  /** Every chord symbol the scanner builds has a flat-free figure. */
  lemma ChordFiguresUseMinusForFlat(lib: ChordLibrary, evs: seq<Event>, tpq: nat)
    requires tpq > 0
    ensures forall k :: 0 <= k < |ScanChords(lib, evs, tpq)| && ScanChords(lib, evs, tpq)[k].harmony.ChordSymbol? ==>
      'b' !in ScanChords(lib, evs, tpq)[k].harmony.figure
  {
    var pick := ChordPick(lib);
    ScanIsStamps(evs, pick);
    StampsKeep(evs, pick, (h: Harmony) => h.ChordSymbol? ==> 'b' !in h.figure);
  }

  /** An XF chord event whose payload is nothing but fillers yields no
      chord and no failure, and so does any message other than a chord
      event or a text, lyric or marker event. */
  lemma NoChordFrom(lib: ChordLibrary, m: Msg)
    requires
      || (m.SequencerSpecific? && IsXfEvent(m.data, ChordId) && forall k :: 3 <= k < |m.data| ==> m.data[k] == Filler)
      || (m.SequencerSpecific? && !IsXfEvent(m.data, ChordId))
      || !(m.SequencerSpecific? || m.Text?)
    ensures ChordOf(lib, m).None?
  {
    if m.SequencerSpecific? && IsXfEvent(m.data, ChordId) {
      var p := m.data[3..];
      assert forall b :: b in p ==> b == Filler;
      if DropFiller(p) != [] {
        assert DropFiller(p)[0] in DropFiller(p);
      }
    }
  }

  /** An XF chord event with a non-empty payload yields the chord its
      fields describe: the no-chord object for type 0x22 (when the library
      keeps it), else the normalised figure of root, quality and differing
      bass (when the library builds it); a payload whose fields do not
      decode yields nothing. */
  lemma XfChordEvent(lib: ChordLibrary, data: seq<Byte>)
    requires IsXfEvent(data, ChordId) && DropFiller(data[3..]) != []
    ensures var r := ChordOf(lib, SequencerSpecific(data));
      match ParseChord(DropFiller(data[3..]))
      case None => r.None?
      case Some(c) =>
        if c.quality == NoChordType then r == (if lib.noChordTruthy then Some(NoChord) else None)
        else r == (if lib.builds(Normalize(Figure(c))) then Some(ChordSymbol(Normalize(Figure(c)))) else None)
  {
    var bytes := DropFiller(data[3..]);
    assert ChordText(lib, SequencerSpecific(data)) == DecodeChord(bytes);
    DecodeChordIsFigure(bytes);
    if ParseChord(bytes).Some? {
      FigureOfChord(ParseChord(bytes).value);
    }
  }

  /** A chord event's text is judged after stripping, whatever kind of
      text event carries it: surrounding white space and the kind never
      change the chord it yields. */
  lemma TextChordEvent(lib: ChordLibrary, kind: TextKind, kind': TextKind, text: string)
    ensures ChordOf(lib, Text(kind, text)) == ChordOf(lib, Text(kind', Strip(text)))
  {
    var t := Strip(text);
    StripIdempotent(text);
    SameCandidate(lib, kind, kind', text, t);
    SameChordText(lib, Text(kind, text), Text(kind', t));
  }

  /** Text events whose texts strip to the same text carry the same chord
      text. */
  lemma SameCandidate(lib: ChordLibrary, kind: TextKind, kind': TextKind, a: string, b: string)
    requires Strip(a) == Strip(b)
    ensures ChordText(lib, Text(kind, a)) == ChordText(lib, Text(kind', b))
  {
    assert ChordText(lib, Text(kind, a)) == TextCandidate(lib, a);
    assert ChordText(lib, Text(kind', b)) == TextCandidate(lib, b);
  }

  /** Two messages with the same chord text yield the same chord. */
  lemma SameChordText(lib: ChordLibrary, m1: Msg, m2: Msg)
    requires ChordText(lib, m1) == ChordText(lib, m2)
    ensures ChordOf(lib, m1) == ChordOf(lib, m2)
  {
  }

  // ---------------------------------------------------------------------------
  // Rehearsal marks

  /** The mark an event carries: an XF rehearsal event with at least one
      byte after its ID. */
  function MarkOf(m: Msg): (r: Option<string>)
    ensures r.Some? <==> m.SequencerSpecific? && IsXfEvent(m.data, RehearsalId) && |m.data| > 3
  {
    match m
    case SequencerSpecific(data) =>
      if IsXfEvent(data, RehearsalId) && |data| > 3 then Some(RehearsalLabel(data[3])) else None
    case _ => None
  }

  /** The rehearsal-mark list of a stream: (absolute tick, label) pairs. */
  function ScanMarks(evs: seq<Event>): seq<Stamped<string>> {
    Scan(evs, 0, [], MarkOf)
  }

  /** Marks come out in stream order, each at the ticks of the stream up to
      its message and labelled from its data byte. */
  lemma MarksInStreamOrder(evs: seq<Event>)
    ensures ScanMarks(evs) == Stamps(evs, MarkOf)
    ensures Sorted(Ticks(ScanMarks(evs)))
    ensures forall k :: 0 <= k < |ScanMarks(evs)| ==> ScanMarks(evs)[k].tick <= TotalTicks(evs)
  {
    ScanIsStamps(evs, MarkOf);
    StampsSorted(evs, MarkOf);
  }

  /** Two marks yield the same label exactly when their low seven bits
      agree: the label keeps both the section and the prime count. */
  lemma MarkLabelsDistinguish(a: seq<Byte>, b: seq<Byte>)
    requires IsXfEvent(a, RehearsalId) && |a| > 3
    requires IsXfEvent(b, RehearsalId) && |b| > 3
    ensures MarkOf(SequencerSpecific(a)) == MarkOf(SequencerSpecific(b)) <==> a[3] % 128 == b[3] % 128
  {
    RehearsalLabelInjective(a[3], b[3]);
  }

  // ---------------------------------------------------------------------------
  // A worked stream

  /** A chord event for C at tick 0, a rehearsal mark "A'" at tick 480, a
      chord event with an empty payload at tick 600, a note at tick 720 and
      a chord event for Em at tick 960. */
  function Sample(): seq<Event> {
    [ Event(0, SequencerSpecific([0x43, 0x7B, 0x01, 0x31, 0x00, 0x7F])),
      Event(480, SequencerSpecific([0x43, 0x7B, 0x02, 0x13])),
      Event(120, SequencerSpecific([0x43, 0x7B, 0x01, 0x7F])),
      Event(120, NoteOn(0, 60, 100)),
      Event(240, SequencerSpecific([0x43, 0x7B, 0x01, 0x33, 0x08, 0x33, 0x7F])) ]
  }

  lemma SamplePrefixes(s: seq<Event>)
    requires s == Sample()
    ensures s[..1] == [s[0]] && s[..1][..0] == []
    ensures s[..2] == s[..1] + [s[1]] && s[..2][..1] == s[..1]
    ensures s[..3] == s[..2] + [s[2]] && s[..3][..2] == s[..2]
    ensures s[..4] == s[..3] + [s[3]] && s[..4][..3] == s[..3]
    ensures s == s[..4] + [s[4]] && s[..4] == s[..|s| - 1]
  {
  }

  lemma SampleTicks(s: seq<Event>)
    requires s == Sample()
    ensures TotalTicks(s[..1]) == 0 && TotalTicks(s[..2]) == 480
    ensures TotalTicks(s[..3]) == 600 && TotalTicks(s[..4]) == 720
    ensures TotalTicks(s) == 960
  {
    SamplePrefixes(s);
  }

  lemma SampleMarks()
    ensures ScanMarks(Sample()) == [Stamped(480, "A'")]
  {
    var s := Sample();
    SamplePrefixes(s);
    SampleTicks(s);
    SampleMarkMessages(s);
    ScanIsStamps(s, MarkOf);
    SampleMarkStamps(s);
  }

  lemma SampleMarkMessages(s: seq<Event>)
    requires s == Sample()
    ensures MarkOf(s[1].msg) == Some("A'")
    ensures MarkOf(s[0].msg).None? && MarkOf(s[2].msg).None? && MarkOf(s[3].msg).None? && MarkOf(s[4].msg).None?
  {
    ExampleMarks();
    assert s[1].msg.data[..2] == Header && s[1].msg.data[3] == 0x13;
  }

  lemma SampleMarkStamps(s: seq<Event>)
    requires s == Sample()
    requires TotalTicks(s[..2]) == 480
    requires MarkOf(s[1].msg) == Some("A'")
    requires MarkOf(s[0].msg).None? && MarkOf(s[2].msg).None? && MarkOf(s[3].msg).None? && MarkOf(s[4].msg).None?
    ensures Stamps(s, MarkOf) == [Stamped(480, "A'")]
  {
    SamplePrefixes(s);
    assert Stamps(s[..1], MarkOf) == [];
    assert Stamps(s[..2], MarkOf) == [Stamped(480, "A'")];
    assert Stamps(s[..3], MarkOf) == Stamps(s[..2], MarkOf);
    assert Stamps(s[..4], MarkOf) == Stamps(s[..3], MarkOf);
  }

  /** The chord a sample chord event yields, from its decoded figure. */
  lemma SampleChordOf(lib: ChordLibrary, data: seq<Byte>, bytes: seq<Byte>, fig: string)
    requires IsXfEvent(data, ChordId) && DropFiller(data[3..]) == bytes && bytes != []
    requires DecodeChord(bytes) == Some(fig) && fig != "" && fig != "N.C."
    requires Normalize(fig) == fig && lib.builds(fig)
    ensures ChordOf(lib, SequencerSpecific(data)) == Some(ChordSymbol(fig))
  {
    assert ChordText(lib, SequencerSpecific(data)) == Some(fig);
  }

  lemma SampleChordC(lib: ChordLibrary, data: seq<Byte>)
    requires data == [0x43, 0x7B, 0x01, 0x31, 0x00, 0x7F] && lib.builds("C")
    ensures ChordOf(lib, SequencerSpecific(data)) == Some(ChordSymbol("C"))
  {
    assert data[..2] == Header && data[3..] == [0x31, 0x00, 0x7F];
    assert DropFiller([0x31, 0x00, 0x7F]) == [0x31, 0x00];
    ExampleChords();
    PlainFigures();
    SampleChordOf(lib, data, [0x31, 0x00], "C");
  }

  lemma SampleChordEm(lib: ChordLibrary, data: seq<Byte>)
    requires data == [0x43, 0x7B, 0x01, 0x33, 0x08, 0x33, 0x7F] && lib.builds("Em")
    ensures ChordOf(lib, SequencerSpecific(data)) == Some(ChordSymbol("Em"))
  {
    assert data[..2] == Header && data[3..] == [0x33, 0x08, 0x33, 0x7F];
    assert DropFiller([0x33, 0x08, 0x33, 0x7F]) == [0x33, 0x08, 0x33];
    ExampleChords();
    PlainFigures();
    SampleChordOf(lib, data, [0x33, 0x08, 0x33], "Em");
  }

  lemma SampleChordMessages(lib: ChordLibrary, s: seq<Event>)
    requires s == Sample() && lib.builds("C") && lib.builds("Em")
    ensures ChordOf(lib, s[0].msg) == Some(ChordSymbol("C"))
    ensures ChordOf(lib, s[1].msg).None? && ChordOf(lib, s[2].msg).None? && ChordOf(lib, s[3].msg).None?
    ensures ChordOf(lib, s[4].msg) == Some(ChordSymbol("Em"))
  {
    SampleChordC(lib, s[0].msg.data);
    SampleChordEm(lib, s[4].msg.data);
    assert s[1].msg.data[..2] == Header;
    NoChordFrom(lib, s[1].msg);
    assert s[2].msg.data[..2] == Header;
    NoChordFrom(lib, s[2].msg);
    NoChordFrom(lib, s[3].msg);
  }

  lemma SampleStamps(s: seq<Event>, pick: Msg -> Option<Harmony>)
    requires s == Sample()
    requires TotalTicks(s[..1]) == 0 && TotalTicks(s) == 960
    requires pick(s[0].msg) == Some(ChordSymbol("C")) && pick(s[4].msg) == Some(ChordSymbol("Em"))
    requires pick(s[1].msg).None? && pick(s[2].msg).None? && pick(s[3].msg).None?
    ensures Stamps(s, pick) == [Stamped(0, ChordSymbol("C")), Stamped(960, ChordSymbol("Em"))]
  {
    SamplePrefixes(s);
    assert Stamps(s[..1], pick) == [Stamped(0, ChordSymbol("C"))];
    assert Stamps(s[..2], pick) == Stamps(s[..1], pick);
    assert Stamps(s[..3], pick) == Stamps(s[..2], pick);
    assert Stamps(s[..4], pick) == Stamps(s[..3], pick);
  }

  /** With a library that builds both figures, the sample yields C at
      offset 0 and Em at offset 2 (960 ticks at 480 per quarter); the empty
      payload yields nothing but its delta still counts. */
  lemma SampleChords(lib: ChordLibrary)
    requires lib.builds("C") && lib.builds("Em")
    ensures ScanChords(lib, Sample(), 480) == [PlacedChord(0.0, ChordSymbol("C")), PlacedChord(2.0, ChordSymbol("Em"))]
  {
    var s := Sample();
    var pick := ChordPick(lib);
    SamplePrefixes(s);
    SampleTicks(s);
    SampleChordMessages(lib, s);
    ScanIsStamps(s, pick);
    SampleStamps(s, pick);
    SamplePlaced(Scan(s, 0, [], pick));
  }

  lemma SamplePlaced(xs: seq<Stamped<Harmony>>)
    requires xs == [Stamped(0, ChordSymbol("C")), Stamped(960, ChordSymbol("Em"))]
    ensures Place(xs, 480) == [PlacedChord(0.0, ChordSymbol("C")), PlacedChord(2.0, ChordSymbol("Em"))]
  {
    assert Quarters(0, 480) == 0.0 && Quarters(960, 480) == 2.0;
  }
}
