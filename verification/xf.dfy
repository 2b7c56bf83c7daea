/** The Yamaha XF chord-name and rehearsal-mark payloads carried by
    sequencer-specific meta events (header `43 7B`, then an event ID).
    Bytes are taken apart with `b % 16` for `b & 0x0F` and `(b / 16) % 8`
    for `(b >> 4) & 7`, which agree with Python's operators on bytes. */
module Xf {
  import opened Optional

  /** A data byte of a meta event. */
  type Byte = b: int | 0 <= b < 256

  /** `XF_ROOT_DISP`: accidental code 0..6 to its spelling. */
  const RootDisp: seq<string> := ["bbb", "bb", "b", "", "#", "##", "###"]

  /** `XF_ROOT_NOTE`: letter code 1..7 to its name, stored at index code - 1. */
  const RootNote: seq<string> := ["C", "D", "E", "F", "G", "A", "B"]

  /** `XF_CHORD_TYPES`: chord-type byte 0x00..0x22 to the quality suffix. */
  const ChordTypes: seq<string> := [
    "", "6", "maj7", "maj7(#11)", "add9", "maj9", "6(9)", "aug",
    "m", "m6", "m7", "m7b5", "m(add9)", "m9", "m11", "m(maj7)",
    "m(maj7,9)", "dim", "dim7", "7", "7sus4", "7b5", "7(9)", "7(#11)",
    "7(13)", "7(b9)", "7(b13)", "7(#9)", "maj7aug", "7aug", "1+8", "1+5",
    "sus4", "1+2+5", "N.C."]

  /** The chord-type byte whose entry is the no-chord sentinel. */
  const NoChordType := 0x22

  /** `XF_REHE_BASE`: low nibble of a rehearsal byte to the section name. */
  const RehearsalBases: seq<string> := [
    "Intro", "Ending", "Fill-in", "A", "B", "C", "D", "E", "F", "G", "H",
    "I", "J", "K", "L", "M"]

  /** `XF_META_HEADER`: the first two data bytes of every XF meta event. */
  const Header: seq<Byte> := [0x43, 0x7B]

  /** Event IDs following the `43 7B` header. */
  const ChordId := 0x01
  const RehearsalId := 0x02

  /** The sentinel byte: a separator in chord payloads, and "no bass". */
  const Filler := 0x7F

  /** The data of a sequencer-specific event carries the XF header
      followed by the given event ID. */
  predicate IsXfEvent(data: seq<Byte>, id: int) {
    |data| > 2 && data[..2] == Header && data[2] == id
  }

  // ---------------------------------------------------------------------------
  // Note bytes

  /** A note as the XF layout `0fffnnnn` spells it: letter code `nnnn`
      (1..7 for C..B) and accidental code `fff` (0..6 for bbb..###). */
  datatype Spelling = Spelling(letter: int, accidental: int)

  predicate ValidSpelling(sp: Spelling) {
    1 <= sp.letter <= 7 && 0 <= sp.accidental <= 6
  }

  /** The two fields of a byte; bit 7 is ignored, as by the source's masks. */
  function SpellingOf(b: Byte): Spelling {
    Spelling(b % 16, (b / 16) % 8)
  }

  /** The byte that spells `sp` with bit 7 clear. */
  function SpellingByte(sp: Spelling): Byte
    requires ValidSpelling(sp)
  {
    sp.accidental * 16 + sp.letter
  }

  /** The text of a spelling: letter name followed by accidentals. */
  function Name(sp: Spelling): string
    requires ValidSpelling(sp)
  {
    RootNote[sp.letter - 1] + RootDisp[sp.accidental]
  }

  /** `parse_note_byte`: the name of a root or bass byte, or `None` for the
      byte 127 and for a letter or accidental code outside the tables. */
  function NoteName(b: Byte): (r: Option<string>)
    ensures r.Some? <==> ValidSpelling(SpellingOf(b))
    ensures r.Some? ==> r.value == Name(SpellingOf(b))
  {
    if b == 127 then None
    else
      var fff := (b / 16) % 8;
      var nnnn := b % 16;
      if !(0 <= fff < |RootDisp|) || !(1 <= nnnn <= |RootNote|) then None
      else Some(RootNote[nnnn - 1] + RootDisp[fff])
  }

  /** Byte arithmetic: the low seven bits are the two fields. */
  lemma Low7Bits(b: Byte)
    ensures b % 128 == ((b / 16) % 8) * 16 + b % 16
  {
    var hi := b / 16;
    assert b == hi * 16 + b % 16;
    assert hi == (hi / 8) * 8 + hi % 8;
    assert b == (hi / 8) * 128 + (hi % 8) * 16 + b % 16;
  }

  /** Encoding a spelling and decoding it gives the spelling back. */
  lemma SpellingRoundTrip(sp: Spelling)
    requires ValidSpelling(sp)
    ensures SpellingOf(SpellingByte(sp)) == sp
    ensures NoteName(SpellingByte(sp)) == Some(Name(sp))
  {
    var b := SpellingByte(sp);
    assert b / 16 == sp.accidental;
  }

  /** Different spellings have different names, so the source's comparison
      of root and bass by their text is a comparison of spellings. */
  lemma NameInjective(a: Spelling, b: Spelling)
    requires ValidSpelling(a) && ValidSpelling(b)
    ensures Name(a) == Name(b) <==> a == b
  {
    if Name(a) == Name(b) {
      assert Name(a)[0] == Name(b)[0];
      assert RootNote[a.letter - 1][0] == Name(a)[0];
      assert RootNote[b.letter - 1][0] == Name(b)[0];
      assert a.letter == b.letter;
      assert RootDisp[a.accidental] == Name(a)[1..];
      assert RootDisp[b.accidental] == Name(b)[1..];
    }
  }

  /** Two decodable note bytes decode to the same text exactly when their
      low seven bits agree. */
  lemma NoteNameEqualIff(a: Byte, b: Byte)
    requires NoteName(a).Some? && NoteName(b).Some?
    ensures NoteName(a) == NoteName(b) <==> a % 128 == b % 128
  {
    NameInjective(SpellingOf(a), SpellingOf(b));
    Low7Bits(a);
    Low7Bits(b);
  }

  // ---------------------------------------------------------------------------
  // Chord payloads

  /** The sentinel text "N.C." is the entry of the no-chord type only. */
  lemma NoChordEntryOnly(ct: int)
    requires 0 <= ct < |ChordTypes|
    ensures ChordTypes[ct] == "N.C." <==> ct == NoChordType
  {
    if ct != NoChordType {
      assert '.' !in ChordTypes[ct];
    }
  }

  /** `_parse_xf_chord_sysex`: a chord figure from the payload bytes that
      follow the chord ID, with the `7F` separators already removed. */
  function DecodeChord(bytes: seq<Byte>): (r: Option<string>)
    ensures r.None? <==>
      || !(2 <= |bytes| <= 4)
      || bytes[1] > NoChordType
      || (bytes[1] != NoChordType && NoteName(bytes[0]).None?)
    ensures 2 <= |bytes| <= 4 && bytes[1] == NoChordType ==> r == Some("N.C.")
  {
    if !(2 <= |bytes| <= 4) then None
    else
      var cr, ct := bytes[0], bytes[1];
      var bn := if |bytes| >= 3 then bytes[2] else Filler;
      if !(0 <= ct < |ChordTypes|) then None
      else
        var typeStr := ChordTypes[ct];
        if typeStr == "N.C." then Some("N.C.")
        else match NoteName(cr)
          case None => None
          case Some(root) =>
            var bass := NoteName(bn);
            var slash := if bass.Some? && bass.value != [] && root != bass.value then "/" + bass.value else "";
            Some(root + typeStr + slash)
  }

  /** A chord payload read as fields: root, chord-type byte, and the bass
      spelling when the third byte is present and decodes. */
  datatype XfChord = XfChord(root: Spelling, quality: int, bass: Option<Spelling>)

  predicate ValidChord(c: XfChord) {
    && 0 <= c.quality <= NoChordType
    && (c.quality == NoChordType || ValidSpelling(c.root))
    && (c.bass.Some? ==> ValidSpelling(c.bass.value))
  }

  /** The figure a chord stands for: "N.C." for the no-chord type, otherwise
      root, quality, and "/bass" when the bass differs from the root. */
  function Figure(c: XfChord): string
    requires ValidChord(c)
  {
    if c.quality == NoChordType then "N.C."
    else
      Name(c.root) + ChordTypes[c.quality]
      + (match c.bass
         case Some(b) => if b != c.root then "/" + Name(b) else ""
         case None => "")
  }

  /** The fields of a payload, or `None` when it does not decode. */
  function ParseChord(bytes: seq<Byte>): (r: Option<XfChord>)
    ensures r.Some? ==> ValidChord(r.value)
  {
    if !(2 <= |bytes| <= 4) || bytes[1] > NoChordType then None
    else if bytes[1] != NoChordType && !ValidSpelling(SpellingOf(bytes[0])) then None
    else
      var bass := if |bytes| >= 3 && ValidSpelling(SpellingOf(bytes[2])) then Some(SpellingOf(bytes[2])) else None;
      Some(XfChord(SpellingOf(bytes[0]), bytes[1], bass))
  }

  /** Only the no-chord type has the figure "N.C.", and no figure is
      empty: any other figure starts with its root letter. */
  lemma FigureOfChord(c: XfChord)
    requires ValidChord(c)
    ensures Figure(c) != ""
    ensures Figure(c) == "N.C." <==> c.quality == NoChordType
    ensures c.quality != NoChordType ==> Figure(c)[0] == RootNote[c.root.letter - 1][0]
  {
    if c.quality != NoChordType {
      var n := Name(c.root);
      assert n[0] == RootNote[c.root.letter - 1][0];
      assert Figure(c)[0] == n[0];
    }
  }

  /** The decoder's string-level result is the figure of the field-level
      reading: comparing root and bass by text is comparing the notes. */
  lemma DecodeChordIsFigure(bytes: seq<Byte>)
    ensures DecodeChord(bytes) == (match ParseChord(bytes)
                                   case None => None
                                   case Some(c) => Some(Figure(c)))
  {
    if 2 <= |bytes| <= 4 && bytes[1] <= NoChordType {
      NoChordEntryOnly(bytes[1]);
      if bytes[1] != NoChordType && ValidSpelling(SpellingOf(bytes[0])) {
        var c := ParseChord(bytes).value;
        var bn := if |bytes| >= 3 then bytes[2] else Filler;
        assert NoteName(bn).Some? <==> c.bass.Some?;
        if c.bass.Some? {
          NameInjective(c.root, c.bass.value);
        }
      }
    }
  }

  /** The payload bytes of a chord: root byte, type byte, and a bass byte
      only when there is a bass. */
  function EncodeChord(c: XfChord): seq<Byte>
    requires ValidChord(c) && ValidSpelling(c.root)
  {
    [SpellingByte(c.root), c.quality]
    + (match c.bass
       case Some(b) => [SpellingByte(b)]
       case None => [])
  }

  /** Decoding an encoded chord yields its figure. */
  lemma DecodeEncodeChord(c: XfChord)
    requires ValidChord(c) && ValidSpelling(c.root)
    ensures ParseChord(EncodeChord(c)) == Some(c)
    ensures DecodeChord(EncodeChord(c)) == Some(Figure(c))
  {
    SpellingRoundTrip(c.root);
    if c.bass.Some? {
      SpellingRoundTrip(c.bass.value);
    }
    DecodeChordIsFigure(EncodeChord(c));
  }

  /** No chord-type suffix and no note name contains a slash. */
  lemma NoSlashInParts(ct: int, sp: Spelling)
    requires 0 <= ct < |ChordTypes| && ValidSpelling(sp)
    ensures '/' !in ChordTypes[ct] && '/' !in Name(sp)
  {
  }

  /** The slash rule: a figure shows "/bass" exactly when the chord is not
      N.C., a bass byte is present and decodes, and it names a different
      note from the root; a fourth byte never matters. */
  lemma SlashRule(bytes: seq<Byte>)
    requires DecodeChord(bytes).Some?
    ensures '/' in DecodeChord(bytes).value <==>
      && bytes[1] != NoChordType
      && |bytes| >= 3
      && NoteName(bytes[2]).Some?
      && bytes[2] % 128 != bytes[0] % 128
    ensures |bytes| == 4 ==> DecodeChord(bytes) == DecodeChord(bytes[..3])
  {
    DecodeChordIsFigure(bytes);
    var c := ParseChord(bytes).value;
    if c.quality != NoChordType {
      NoSlashInParts(c.quality, c.root);
      var head := Name(c.root) + ChordTypes[c.quality];
      assert '/' !in head;
      if c.bass.Some? {
        NoteNameEqualIff(bytes[0], bytes[2]);
        NameInjective(c.root, c.bass.value);
        if c.bass.value != c.root {
          assert DecodeChord(bytes).value == head + "/" + Name(c.bass.value);
          assert DecodeChord(bytes).value[|head|] == '/';
        } else {
          assert DecodeChord(bytes).value == head;
        }
      } else {
        assert DecodeChord(bytes).value == head;
      }
    }
    if |bytes| == 4 {
      DecodeChordIsFigure(bytes[..3]);
    }
  }

  // ---------------------------------------------------------------------------
  // Rehearsal payloads

  /** `n` apostrophes, one per repeat variant. */
  function Primes(n: nat): (r: string)
    ensures |r| == n && forall k :: 0 <= k < n ==> r[k] == '\''
  {
    seq(n, _ => '\'')
  }

  /** `XF_REHE_BASE.get(i, "?")`. */
  function BaseLabel(i: int): string {
    if 0 <= i < |RehearsalBases| then RehearsalBases[i] else "?"
  }

  /** The label of a rehearsal byte `rr`: base name from the low nibble and
      `(rr >> 4) & 7` apostrophes. */
  function RehearsalLabel(rr: Byte): string {
    BaseLabel(rr % 16) + Primes((rr / 16) % 8)
  }

  /** The rehearsal byte for a section index and a variant count. */
  function MarkByte(section: int, variants: int): Byte
    requires 0 <= section < 16 && 0 <= variants < 8
  {
    variants * 16 + section
  }

  /** No base name contains an apostrophe. */
  lemma BasesHaveNoPrime(i: int)
    requires 0 <= i < |RehearsalBases|
    ensures '\'' !in RehearsalBases[i] && RehearsalBases[i] != []
  {
  }

  /** The label ends in exactly `(rr >> 4) & 7` apostrophes, preceded by the
      base name selected by the low nibble. */
  lemma RehearsalLabelParts(section: int, variants: int)
    requires 0 <= section < 16 && 0 <= variants < 8
    ensures RehearsalLabel(MarkByte(section, variants)) == RehearsalBases[section] + Primes(variants)
  {
    var b := MarkByte(section, variants);
    assert b / 16 == variants;
  }

  /** The text of `s` before its first apostrophe. */
  function BeforePrime(s: string): string {
    if s == [] || s[0] == '\'' then [] else [s[0]] + BeforePrime(s[1..])
  }

  lemma {:induction false} BeforePrimeOfLabel(b: string, n: nat)
    requires '\'' !in b
    ensures BeforePrime(b + Primes(n)) == b
  {
    if b == [] {
      assert b + Primes(n) == Primes(n);
    } else {
      assert (b + Primes(n))[1..] == b[1..] + Primes(n);
      BeforePrimeOfLabel(b[1..], n);
    }
  }

  /** A label splits uniquely into a base without apostrophes and a run of
      apostrophes. */
  lemma SplitAtPrimes(b1: string, n1: nat, b2: string, n2: nat)
    requires '\'' !in b1 && '\'' !in b2
    requires b1 + Primes(n1) == b2 + Primes(n2)
    ensures b1 == b2 && n1 == n2
  {
    BeforePrimeOfLabel(b1, n1);
    BeforePrimeOfLabel(b2, n2);
  }

  /** The sixteen base names are distinct. */
  lemma BasesDistinct(i: int, j: int)
    requires 0 <= i < |RehearsalBases| && 0 <= j < |RehearsalBases|
    ensures RehearsalBases[i] == RehearsalBases[j] <==> i == j
  {
  }

  /** Two labels are equal exactly when the bytes agree in their low seven
      bits, so the label determines the section and the variant count. */
  lemma RehearsalLabelInjective(a: Byte, b: Byte)
    ensures RehearsalLabel(a) == RehearsalLabel(b) <==> a % 128 == b % 128
  {
    if RehearsalLabel(a) == RehearsalLabel(b) {
      LabelDeterminesBits(a, b);
    }
    if a % 128 == b % 128 {
      Low7Split(a);
      Low7Split(b);
    }
  }

  lemma LabelDeterminesBits(a: Byte, b: Byte)
    requires RehearsalLabel(a) == RehearsalLabel(b)
    ensures a % 128 == b % 128
  {
    BasesHaveNoPrime(a % 16);
    BasesHaveNoPrime(b % 16);
    SplitAtPrimes(RehearsalBases[a % 16], (a / 16) % 8, RehearsalBases[b % 16], (b / 16) % 8);
    BasesDistinct(a % 16, b % 16);
    Low7Bits(a);
    Low7Bits(b);
  }

  /** The two fields of a rehearsal byte depend only on its low seven bits. */
  lemma Low7Split(x: Byte)
    ensures x % 16 == (x % 128) % 16 && (x / 16) % 8 == (x % 128) / 16
  {
    if x >= 128 {
      assert x % 128 == x - 128;
      assert x / 16 == (x - 128) / 16 + 8;
    }
  }

  // ---------------------------------------------------------------------------
  // Worked examples

  lemma ExampleChords()
    ensures DecodeChord([0x31, 0x00]) == Some("C")
    ensures DecodeChord([0x32, 0x02, 0x45]) == Some("Dmaj7/G#")
    ensures DecodeChord([0x33, 0x08, 0x33]) == Some("Em")
    ensures DecodeChord([0x7E, 0x22]) == Some("N.C.")
    ensures DecodeChord([0x31]) == None
    ensures DecodeChord([0x31, 0x23]) == None
    ensures DecodeChord([0x30, 0x00]) == None
    ensures DecodeChord([0x31, 0x13, 0x70, 0x45]) == Some("C7")
  {
    assert RootNote[0] + RootDisp[3] == "C";
    assert RootNote[1] + RootDisp[3] == "D";
    assert RootNote[2] + RootDisp[3] == "E";
    assert RootNote[4] + RootDisp[4] == "G#";
    assert NoteName(0x31) == Some("C");
    assert NoteName(0x32) == Some("D");
    assert NoteName(0x33) == Some("E");
    assert NoteName(0x45) == Some("G#");
    assert NoteName(0x70) == None;
    assert "C" + "" + "" == "C";
    assert "D" + "maj7" + ("/" + "G#") == "Dmaj7/G#";
    assert "E" + "m" + "" == "Em";
    assert "C" + "7" + "" == "C7";
  }

  lemma ExampleMarks()
    ensures RehearsalLabel(0x13) == "A'"
    ensures RehearsalLabel(0x00) == "Intro"
    ensures RehearsalLabel(0x2F) == "M''"
  {
    assert Primes(1) == "'";
    assert Primes(2) == "''";
  }
}
