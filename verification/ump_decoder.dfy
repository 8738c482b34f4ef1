/** The Universal MIDI Packet decoder of the Windows MIDI Services source
    (WindowsMidiEndpointManager.OnMessageReceived): the first 32-bit word of a
    packet becomes a note event, or nothing. The word is an integer in
    [0, 2^32); a right shift followed by a mask is a division by a power of
    two followed by a remainder, so every field is written with `/` and `%`.
    Word layout, most significant nibble first: message type, group, status,
    channel, then a note byte and a velocity byte (the MIDI 1.0 Channel Voice
    message of section 7.3 of the Universal MIDI Packet and MIDI 2.0 Protocol
    specification, M2-104-UM). */
module UmpDecoder {
  import opened Wrappers
  import opened Midi

  type Word = w: int | 0 <= w < 0x1_0000_0000

  /** Message type 0x2: MIDI 1.0 Channel Voice. */
  const ChannelVoiceType: int := 0x2
  const NoteOnStatus: int := 0x9
  const NoteOffStatus: int := 0x8

  /** The six fields of a word, each as wide as in the layout. */
  datatype Fields = Fields(messageType: int, group: int, status: int, channel: int, noteByte: int, velocityByte: int)

  predicate FieldsInRange(f: Fields) {
    && 0 <= f.messageType < 16 && 0 <= f.group < 16
    && 0 <= f.status < 16 && 0 <= f.channel < 16
    && 0 <= f.noteByte < 256 && 0 <= f.velocityByte < 256
  }

  /** `word >> 28`, `(word >> 24) & 0xF`, `(word >> 20) & 0xF`,
      `(word >> 16) & 0xF`, `(word >> 8) & 0xFF` and `word & 0xFF`. */
  function Unpack(w: Word): (f: Fields)
    ensures FieldsInRange(f)
  {
    Fields(w / 0x1000_0000 % 16, w / 0x100_0000 % 16, w / 0x10_0000 % 16,
           w / 0x1_0000 % 16, w / 0x100 % 256, w % 256)
  }

  /** Lays the fields out in a word. */
  function Pack(f: Fields): Word
    requires FieldsInRange(f)
  {
    f.messageType * 0x1000_0000 + f.group * 0x100_0000 + f.status * 0x10_0000
      + f.channel * 0x1_0000 + f.noteByte * 0x100 + f.velocityByte
  }

  /** Euclidean division is unique: `a * m + b` with `0 <= b < m` has
      quotient `a` and remainder `b`. */
  lemma DivModUnique(a: int, b: int, m: int)
    requires m > 0 && 0 <= b < m
    ensures (a * m + b) / m == a && (a * m + b) % m == b
  {
    var q := (a * m + b) / m;
    var r := (a * m + b) % m;
    assert q * m + r == a * m + b;
    assert (q - a) * m == b - r;
    if q > a {
      assert (q - a) * m >= m by { MulAtLeast(q - a, m); }
    } else if q < a {
      assert (a - q) * m >= m by { MulAtLeast(a - q, m); }
    }
  }

  lemma MulAtLeast(k: int, m: int)
    requires k >= 1 && m > 0
    ensures k * m >= m
  {
  }

  /** Shifting right by `a` then by `b` bits is shifting right by `a + b`. */
  lemma DivDiv(x: int, a: int, b: int)
    requires x >= 0 && a > 0 && b > 0
    ensures x / (a * b) == x / a / b
  {
    var q, r := x / a, x % a;
    var q2, r2 := q / b, q % b;
    assert x == q2 * (a * b) + (r2 * a + r) by {
      assert x == q * a + r;
      assert q == q2 * b + r2;
    }
    assert r2 * a <= (b - 1) * a by { MulLeq(r2, b - 1, a); }
    assert 0 <= r2 * a by { MulLeq(0, r2, a); }
    DivModUnique(q2, r2 * a + r, a * b);
  }

  lemma MulLeq(i: int, j: int, m: int)
    requires i <= j && m > 0
    ensures i * m <= j * m
  {
  }

  /** The field `mid`, `k` values wide, sitting above `lo` which is below
      `m`, is read back by dividing by `m` and taking the remainder by `k`. */
  lemma Extract(hi: int, mid: int, lo: int, k: int, m: int)
    requires k > 0 && m > 0 && 0 <= mid < k && 0 <= lo < m
    ensures ((hi * k + mid) * m + lo) / m % k == mid
  {
    DivModUnique(hi * k + mid, lo, m);
    DivModUnique(hi, mid, k);
  }

  /** Packing then unpacking gives the fields back. */
  lemma UnpackPack(f: Fields)
    requires FieldsInRange(f)
    ensures Unpack(Pack(f)) == f
  {
    var (t, g, s, c, n, v) := (f.messageType, f.group, f.status, f.channel, f.noteByte, f.velocityByte);
    var w := Pack(f);
    assert w == (0 * 16 + t) * 0x1000_0000 + (g * 0x100_0000 + s * 0x10_0000 + c * 0x1_0000 + n * 0x100 + v);
    Extract(0, t, g * 0x100_0000 + s * 0x10_0000 + c * 0x1_0000 + n * 0x100 + v, 16, 0x1000_0000);
    assert w == (t * 16 + g) * 0x100_0000 + (s * 0x10_0000 + c * 0x1_0000 + n * 0x100 + v);
    Extract(t, g, s * 0x10_0000 + c * 0x1_0000 + n * 0x100 + v, 16, 0x100_0000);
    assert w == ((t * 16 + g) * 16 + s) * 0x10_0000 + (c * 0x1_0000 + n * 0x100 + v);
    Extract(t * 16 + g, s, c * 0x1_0000 + n * 0x100 + v, 16, 0x10_0000);
    assert w == (((t * 16 + g) * 16 + s) * 16 + c) * 0x1_0000 + (n * 0x100 + v);
    Extract((t * 16 + g) * 16 + s, c, n * 0x100 + v, 16, 0x1_0000);
    assert w == ((((t * 16 + g) * 16 + s) * 16 + c) * 256 + n) * 0x100 + v;
    Extract(((t * 16 + g) * 16 + s) * 16 + c, n, v, 256, 0x100);
    DivModUnique((((t * 16 + g) * 16 + s) * 16 + c) * 256 + n, v, 256);
  }

  /** Unpacking then packing gives the word back: the fields cover every bit. */
  lemma PackUnpack(w: Word)
    ensures Pack(Unpack(w)) == w
  {
    var f := Unpack(w);
    var q8, q16, q20, q24, q28 := w / 0x100, w / 0x1_0000, w / 0x10_0000, w / 0x100_0000, w / 0x1000_0000;
    DivDiv(w, 0x100, 0x100);
    DivDiv(w, 0x1_0000, 16);
    DivDiv(w, 0x10_0000, 16);
    DivDiv(w, 0x100_0000, 16);
    assert w == q8 * 256 + f.velocityByte;
    assert q8 == q16 * 256 + f.noteByte;
    assert q16 == q20 * 16 + f.channel;
    assert q20 == q24 * 16 + f.status;
    assert q24 == q28 * 16 + f.group;
    assert q28 == f.messageType;
  }

  /** OnMessageReceived on the unpacked fields, up to the point where it
      raises `NoteReceived`: another message type, or a status other than
      Note On and Note Off, gives nothing; the note and velocity keep their
      low seven bits (`& 0x7F`); the channel becomes 1-based; a Note On with
      velocity 0 is a release. */
  function DecodeFields(f: Fields): (r: Option<MidiNoteEvent>)
    requires FieldsInRange(f)
    ensures r.Some? <==> f.messageType == ChannelVoiceType && f.status in {NoteOnStatus, NoteOffStatus}
    ensures r.Some? ==> WellRanged(r.value) && Normalised(r.value)
    ensures r.Some? ==> r.value.channel == f.channel + 1
    ensures r.Some? ==> r.value.note == f.noteByte % 128 && r.value.velocity == f.velocityByte % 128
    ensures r.Some? ==> (r.value.isNoteOn <==> f.status == NoteOnStatus && r.value.velocity > 0)
  {
    if f.messageType != ChannelVoiceType then None
    else
      var channel := f.channel + 1;
      var note := f.noteByte % 128;
      var velocity := f.velocityByte % 128;
      if f.status == NoteOnStatus then Some(MidiNoteEvent(velocity > 0, channel, note, velocity))
      else if f.status == NoteOffStatus then Some(MidiNoteEvent(false, channel, note, velocity))
      else None
  }

  /** OnMessageReceived on the word `PeekFirstWord` returns. */
  function Decode(w: Word): Option<MidiNoteEvent> {
    DecodeFields(Unpack(w))
  }

  /** Decoding a packed word decodes its fields. */
  lemma DecodePack(f: Fields)
    requires FieldsInRange(f)
    ensures Decode(Pack(f)) == DecodeFields(f)
  {
    UnpackPack(f);
  }

  /** The fields of the word a MIDI 1.0 device sends for an event on group
      `group`: Note On for an activation and Note Off for a release, with the
      0-based channel. */
  function EncodeFields(e: MidiNoteEvent, group: int): (f: Fields)
    requires WellRanged(e) && 0 <= group < 16
    ensures FieldsInRange(f)
  {
    Fields(ChannelVoiceType, group, if e.isNoteOn then NoteOnStatus else NoteOffStatus, e.channel - 1, e.note, e.velocity)
  }

  /** The word itself. */
  function Encode(e: MidiNoteEvent, group: int): Word
    requires WellRanged(e) && 0 <= group < 16
  {
    Pack(EncodeFields(e, group))
  }

  lemma DecodeFieldsOfEncoding(e: MidiNoteEvent, group: int)
    requires WellRanged(e) && Normalised(e) && 0 <= group < 16
    ensures DecodeFields(EncodeFields(e, group)) == Some(e)
  {
  }

  /** Every well-ranged, normalised event survives encoding and decoding,
      whatever the group. */
  lemma DecodeEncode(e: MidiNoteEvent, group: int)
    requires WellRanged(e) && Normalised(e) && 0 <= group < 16
    ensures Decode(Encode(e, group)) == Some(e)
  {
    DecodePack(EncodeFields(e, group));
    DecodeFieldsOfEncoding(e, group);
  }

  /** Every event the decoder produces is the decoding of its own encoding on
      the word's group: decoding loses only the group and the high bits of
      the note and velocity bytes. */
  lemma EncodeDecode(w: Word)
    requires Decode(w).Some?
    ensures Decode(Encode(Decode(w).value, Unpack(w).group)) == Decode(w)
  {
    DecodeEncode(Decode(w).value, Unpack(w).group);
  }

  /** The group nibble and the top bit of the note and velocity bytes do not
      affect the result: words that agree on the message type, status,
      channel and the low seven bits of note and velocity decode alike. */
  lemma GroupAndHighBitsIgnored(f: Fields, g: Fields)
    requires FieldsInRange(f) && FieldsInRange(g)
    requires f.messageType == g.messageType && f.status == g.status && f.channel == g.channel
    requires f.noteByte % 128 == g.noteByte % 128 && f.velocityByte % 128 == g.velocityByte % 128
    ensures Decode(Pack(f)) == Decode(Pack(g))
  {
    DecodePack(f);
    DecodePack(g);
  }

  /** A word whose message type is not 0x2 gives nothing. */
  lemma OtherMessageTypesIgnored(f: Fields)
    requires FieldsInRange(f) && f.messageType != ChannelVoiceType
    ensures Decode(Pack(f)).None?
  {
    DecodePack(f);
  }

  /** Note On with velocity 0 is a release carrying velocity 0, exactly what
      a Note Off with velocity 0 gives. */
  lemma NoteOnZeroIsRelease(f: Fields)
    requires FieldsInRange(f) && f.messageType == ChannelVoiceType && f.status == NoteOnStatus && f.velocityByte % 128 == 0
    ensures Decode(Pack(f)) == Some(MidiNoteEvent(false, f.channel + 1, f.noteByte % 128, 0))
    ensures Decode(Pack(f)) == Decode(Pack(f.(status := NoteOffStatus)))
  {
    DecodePack(f);
    DecodePack(f.(status := NoteOffStatus));
  }

  /** A Note On word `0x2_0_9_0_3C_64` (group 0, channel 1, note 60,
      velocity 100) is an activation; the Note Off `0x2_0_8_0_3C_40` is a
      release that keeps velocity 64. */
  lemma ConcreteWords()
    ensures Decode(0x2090_3C64) == Some(MidiNoteEvent(true, 1, 60, 100))
    ensures Decode(0x2080_3C40) == Some(MidiNoteEvent(false, 1, 60, 64))
    ensures Decode(0x1090_3C64) == None
  {
  }
}
